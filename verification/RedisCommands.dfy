/**
Commands on a keyed store, one key each.  `State` and `ReplyAt` say what a transaction does on one
connection; the lemmas say that splitting it by hash slot changes nothing, because a command only
sees and changes the cell of its own key.
*/
module RedisCommands {
  import opened Wrappers

  datatype Item<V> = Item(value: V, expires: Option<int>)

  type Store<V> = map<string, Item<V>>

  datatype Command<V> =
    | Set(key: string, item: Item<V>)
    | Del(key: string)
    | Exists(key: string)
    | Get(key: string)

  datatype Reply<V> = OK | Int(n: nat) | Bulk(value: Option<V>)

  function Update<V>(s: Store<V>, k: string, c: Option<Item<V>>): Store<V> {
    match c
    case Some(item) => s[k := item]
    case None => s - {k}
  }

  /** What a command leaves in its cell. */
  function CellOf<V>(c: Command<V>, cell: Option<Item<V>>): Option<Item<V>> {
    match c
    case Set(_, item) => Some(item)
    case Del(_) => None
    case _ => cell
  }

  function ReplyOf<V>(c: Command<V>, cell: Option<Item<V>>): Reply<V> {
    match c
    case Set(_, _) => OK
    case Del(_) => Int(if cell.Some? then 1 else 0)
    case Exists(_) => Int(if cell.Some? then 1 else 0)
    case Get(_) => Bulk(if cell.Some? then Some(cell.value.value) else None)
  }

  /** The store after a transaction. */
  function State<V>(s: Store<V>, cmds: seq<Command<V>>): Store<V> {
    if cmds == [] then s
    else
      var t, c := State(s, cmds[..|cmds| - 1]), cmds[|cmds| - 1];
      Update(t, c.key, CellOf(c, Lookup(t, c.key)))
  }

  /** The i-th reply of a transaction. */
  function ReplyAt<V>(s: Store<V>, cmds: seq<Command<V>>, i: nat): Reply<V>
    requires i < |cmds|
  {
    ReplyOf(cmds[i], Lookup(State(s, cmds[..i]), cmds[i].key))
  }

  function Replies<V>(s: Store<V>, cmds: seq<Command<V>>): (r: seq<Reply<V>>)
    ensures |r| == |cmds| && forall i :: 0 <= i < |cmds| ==> r[i] == ReplyAt(s, cmds, i)
  {
    seq(|cmds|, i requires 0 <= i < |cmds| => ReplyAt(s, cmds, i))
  }

  /** The cell of `k` after the commands, from what it holds before. */
  function CellAfter<V>(cell: Option<Item<V>>, cmds: seq<Command<V>>, k: string): Option<Item<V>> {
    if cmds == [] then cell
    else
      var before, c := CellAfter(cell, cmds[..|cmds| - 1], k), cmds[|cmds| - 1];
      if c.key == k then CellOf(c, before) else before
  }

  lemma {:induction false} StateAt<V>(s: Store<V>, cmds: seq<Command<V>>, k: string)
    ensures Lookup(State(s, cmds), k) == CellAfter(Lookup(s, k), cmds, k)
  {
    if cmds != [] {
      StateAt(s, cmds[..|cmds| - 1], k);
      StateAt(s, cmds[..|cmds| - 1], cmds[|cmds| - 1].key);
    }
  }

  lemma StateEquals<V>(s: Store<V>, t: Store<V>, cmds: seq<Command<V>>)
    requires forall k :: Lookup(t, k) == CellAfter(Lookup(s, k), cmds, k)
    ensures t == State(s, cmds)
  {
    forall k ensures Lookup(t, k) == Lookup(State(s, cmds), k) { StateAt(s, cmds, k); }
    SameLookups(t, State(s, cmds));
  }

  /** The last command for a key decides its cell, when it is a `SET`. */
  lemma {:induction false} LastSetWins<V>(cell: Option<Item<V>>, cmds: seq<Command<V>>, i: nat)
    requires i < |cmds| && cmds[i].Set? && forall j :: i < j < |cmds| ==> cmds[j].key != cmds[i].key
    ensures CellAfter(cell, cmds, cmds[i].key) == Some(cmds[i].item)
  {
    if i < |cmds| - 1 { LastSetWins(cell, cmds[..|cmds| - 1], i); }
  }

  // ----- One slot's share of a transaction -----

  /** The commands of one slot, in order, each with its position. */
  function Share<V>(cmds: seq<Command<V>>, slotOf: string -> nat, slot: nat): seq<(Command<V>, nat)> {
    if cmds == [] then []
    else
      var front, c := Share(cmds[..|cmds| - 1], slotOf, slot), cmds[|cmds| - 1];
      if slotOf(c.key) == slot then front + [(c, |cmds| - 1)] else front
  }

  function Commands<V>(share: seq<(Command<V>, nat)>): seq<Command<V>> {
    seq(|share|, j requires 0 <= j < |share| => share[j].0)
  }

  /** Positions in a share point back to their commands, and a share's beginning is the share of a beginning. */
  lemma {:induction false} ShareAt<V>(cmds: seq<Command<V>>, slotOf: string -> nat, slot: nat, j: nat)
    requires j < |Share(cmds, slotOf, slot)|
    ensures var (c, i) := Share(cmds, slotOf, slot)[j];
            i < |cmds| && cmds[i] == c && slotOf(c.key) == slot
            && Share(cmds[..i], slotOf, slot) == Share(cmds, slotOf, slot)[..j]
  {
    var front, last := cmds[..|cmds| - 1], cmds[|cmds| - 1];
    var share := Share(front, slotOf, slot);
    if j < |share| {
      ShareAt(front, slotOf, slot, j);
      var i := share[j].1;
      assert front[..i] == cmds[..i];
      assert Share(cmds, slotOf, slot)[..j] == share[..j];
    }
  }

  lemma {:induction false} InShare<V>(cmds: seq<Command<V>>, slotOf: string -> nat, i: nat)
    requires i < |cmds|
    ensures exists j :: 0 <= j < |Share(cmds, slotOf, slotOf(cmds[i].key))|
                        && Share(cmds, slotOf, slotOf(cmds[i].key))[j] == (cmds[i], i)
  {
    var slot := slotOf(cmds[i].key);
    var front := cmds[..|cmds| - 1];
    var share := Share(front, slotOf, slot);
    if i < |cmds| - 1 {
      InShare(front, slotOf, i);
      var j :| 0 <= j < |share| && share[j] == (front[i], i);
      assert Share(cmds, slotOf, slot)[j] == (cmds[i], i);
    } else {
      assert Share(cmds, slotOf, slot)[|share|] == (cmds[i], i);
    }
  }

  /** Two commands on one key are in one share and keep their order. */
  lemma ShareKeepsOrder<V>(cmds: seq<Command<V>>, slotOf: string -> nat, slot: nat, a: nat, b: nat)
    requires a < b < |Share(cmds, slotOf, slot)|
    ensures Share(cmds, slotOf, slot)[a].1 < Share(cmds, slotOf, slot)[b].1
  {
    ShareAt(cmds, slotOf, slot, b);
    var i := Share(cmds, slotOf, slot)[b].1;
    assert Share(cmds[..i], slotOf, slot)[a] == Share(cmds, slotOf, slot)[a];
    ShareAt(cmds[..i], slotOf, slot, a);
  }

  /** A slot's share does to the slot's keys what all commands do, and nothing to other keys. */
  lemma {:induction false} ShareCell<V>(
    cell: Option<Item<V>>, cmds: seq<Command<V>>, slotOf: string -> nat, slot: nat, k: string)
    ensures CellAfter(cell, Commands(Share(cmds, slotOf, slot)), k)
         == if slotOf(k) == slot then CellAfter(cell, cmds, k) else cell
  {
    if cmds != [] {
      var front := cmds[..|cmds| - 1];
      ShareCell(cell, front, slotOf, slot, k);
      var share := Share(cmds, slotOf, slot);
      if slotOf(cmds[|cmds| - 1].key) == slot {
        assert Commands(share)[..|share| - 1] == Commands(Share(front, slotOf, slot));
      }
    }
  }

  /** A command gets the same reply in its slot's transaction, run at any time before or after the
      other slots', as it gets on one connection. */
  lemma ShareReply<V>(s: Store<V>, t: Store<V>, cmds: seq<Command<V>>, slotOf: string -> nat, slot: nat, j: nat)
    requires j < |Share(cmds, slotOf, slot)|
    requires forall k :: slotOf(k) == slot ==> Lookup(t, k) == Lookup(s, k)
    ensures var share := Share(cmds, slotOf, slot);
            share[j].1 < |cmds| && ReplyAt(t, Commands(share), j) == ReplyAt(s, cmds, share[j].1)
  {
    var share := Share(cmds, slotOf, slot);
    ShareAt(cmds, slotOf, slot, j);
    var (c, i) := share[j];
    assert Commands(share)[..j] == Commands(share[..j]);
    StateAt(t, Commands(share)[..j], c.key);
    StateAt(s, cmds[..i], c.key);
    ShareCell(Lookup(s, c.key), cmds[..i], slotOf, slot, c.key);
  }

  // ----- The last reply for a key -----

  function LastFor<V>(cmds: seq<Command<V>>, k: string): Option<nat> {
    if cmds == [] then None
    else if cmds[|cmds| - 1].key == k then Some(|cmds| - 1) else LastFor(cmds[..|cmds| - 1], k)
  }

  lemma {:induction false} LastForIsLast<V>(cmds: seq<Command<V>>, k: string)
    ensures LastFor(cmds, k).None? ==> forall i :: 0 <= i < |cmds| ==> cmds[i].key != k
    ensures LastFor(cmds, k).Some? ==>
              var i := LastFor(cmds, k).value;
              i < |cmds| && cmds[i].key == k && forall j :: i < j < |cmds| ==> cmds[j].key != k
  {
    if cmds != [] { LastForIsLast(cmds[..|cmds| - 1], k); }
  }

  // ----- Executing the shares one after the other, in any order -----

  /** The entries of each slot with their positions in the input. */
  method GroupBySlot<V>(cmds: seq<Command<V>>, slotOf: string -> nat) returns (slotMap: map<nat, seq<(Command<V>, nat)>>)
    ensures forall i :: 0 <= i < |cmds| ==> slotOf(cmds[i].key) in slotMap
    ensures forall s :: s in slotMap ==> slotMap[s] == Share(cmds, slotOf, s)
  {
    slotMap := map[];
    for i := 0 to |cmds|
      invariant forall j :: 0 <= j < i ==> slotOf(cmds[j].key) in slotMap
      invariant forall s :: s in slotMap ==> slotMap[s] == Share(cmds[..i], slotOf, s)
      invariant forall s :: s !in slotMap ==> Share(cmds[..i], slotOf, s) == []
    {
      assert cmds[..i + 1][..i] == cmds[..i];
      var slot := slotOf(cmds[i].key);
      var group := if slot in slotMap then slotMap[slot] else [];
      slotMap := slotMap[slot := group + [(cmds[i], i)]];
    }
    assert cmds[..|cmds|] == cmds;
  }

  /** The transactions of the slots in `done` have been executed. */
  ghost predicate Executed<V>(
    before: Store<V>, now: Store<V>, cmds: seq<Command<V>>, slotOf: string -> nat, done: set<nat>)
  {
    forall k :: Lookup(now, k) ==
      if slotOf(k) in done then CellAfter(Lookup(before, k), cmds, k) else Lookup(before, k)
  }

  lemma ExecutedNothing<V>(before: Store<V>, cmds: seq<Command<V>>, slotOf: string -> nat)
    ensures Executed(before, before, cmds, slotOf, {})
  {}

  lemma ExecutedOneMore<V>(
    before: Store<V>, now: Store<V>, cmds: seq<Command<V>>, slotOf: string -> nat, done: set<nat>, slot: nat)
    requires Executed(before, now, cmds, slotOf, done) && slot !in done
    ensures Executed(before, State(now, Commands(Share(cmds, slotOf, slot))), cmds, slotOf, done + {slot})
  {
    var share := Commands(Share(cmds, slotOf, slot));
    forall k ensures Lookup(State(now, share), k) ==
        if slotOf(k) in done + {slot} then CellAfter(Lookup(before, k), cmds, k) else Lookup(before, k) {
      StateAt(now, share, k);
      ShareCell(Lookup(now, k), cmds, slotOf, slot, k);
    }
  }

  lemma {:induction false} Untouched<V>(cell: Option<Item<V>>, cmds: seq<Command<V>>, k: string)
    requires forall i :: 0 <= i < |cmds| ==> cmds[i].key != k
    ensures CellAfter(cell, cmds, k) == cell
  {
    if cmds != [] { Untouched(cell, cmds[..|cmds| - 1], k); }
  }

  lemma ExecutedAll<V>(
    before: Store<V>, now: Store<V>, cmds: seq<Command<V>>, slotOf: string -> nat, done: set<nat>)
    requires Executed(before, now, cmds, slotOf, done)
    requires forall i :: 0 <= i < |cmds| ==> slotOf(cmds[i].key) in done
    ensures now == State(before, cmds)
  {
    forall k ensures Lookup(now, k) == CellAfter(Lookup(before, k), cmds, k) {
      if slotOf(k) !in done { Untouched(Lookup(before, k), cmds, k); }
    }
    StateEquals(before, now, cmds);
  }

  /** A slot's transaction holds one slot only. */
  lemma OneSlot<V>(cmds: seq<Command<V>>, slotOf: string -> nat, slot: nat)
    ensures forall j :: 0 <= j < |Commands(Share(cmds, slotOf, slot))| ==>
              slotOf(Commands(Share(cmds, slotOf, slot))[j].key) == slot
  {
    forall j | 0 <= j < |Share(cmds, slotOf, slot)| ensures slotOf(Share(cmds, slotOf, slot)[j].0.key) == slot {
      ShareAt(cmds, slotOf, slot, j);
    }
  }
}

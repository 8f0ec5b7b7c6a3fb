/**
Reading with cleanup in the SQL adapters.  A read captures the time, then its SELECT runs, then a
DELETE removes the rows it found expired; clients may write between any two of these statements.
The MySQL adapter repeats the expiry test in the DELETE, the SQLite adapter does not.
*/
module ExpiryCleanup {
  import opened Wrappers

  type Key = (string, string)  // namespace and id

  datatype Row = Row(value: string, expires: Option<int>)

  type Table = map<Key, Row>

  predicate ExpiredAt(r: Row, t: int) { r.expires.Some? && r.expires.value <= t }

  /** `DELETE ... WHERE id IN (keys)`, with or without `AND expires <= t`. */
  function DeleteExpired(t: Table, keys: set<Key>, now: int, guarded: bool): Table {
    map k | k in t && !(k in keys && (guarded ==> ExpiredAt(t[k], now))) :: t[k]
  }

  datatype Reader =
    | Asking(keys: seq<Key>, now: int)
    | Cleaning(expired: set<Key>, now: int, answer: seq<Option<string>>)
    | Answered(now: int, answer: seq<Option<string>>)

  datatype World = World(table: Table, clock: int, readers: seq<Reader>)

  datatype Action =
    | Tick(to: int)
    | Write(key: Key, row: Row)
    | Remove(key: Key)
    | Ask(keys: seq<Key>)
    | Select(r: nat)
    | Clean(r: nat)

  predicate Enabled(w: World, a: Action) {
    match a
    case Tick(to) => to >= w.clock
    case Select(r) => r < |w.readers| && w.readers[r].Asking?
    case Clean(r) => r < |w.readers| && w.readers[r].Cleaning?
    case _ => true
  }

  /** `get`, `getMany`: the value of each key, `None` for missing and expired rows. */
  function Answer(t: Table, keys: seq<Key>, now: int): seq<Option<string>> {
    seq(|keys|, i requires 0 <= i < |keys| =>
      if keys[i] in t && !ExpiredAt(t[keys[i]], now) then Some(t[keys[i]].value) else None)
  }

  function Stale(t: Table, keys: seq<Key>, now: int): set<Key> {
    set k | k in keys && k in t && ExpiredAt(t[k], now)
  }

  function Next(w: World, a: Action, guarded: bool): World
    requires Enabled(w, a)
  {
    match a
    case Tick(to) => w.(clock := to)
    case Write(k, row) => w.(table := w.table[k := row])
    case Remove(k) => w.(table := w.table - {k})
    case Ask(keys) => w.(readers := w.readers + [Asking(keys, w.clock)])
    case Select(r) =>
      var Asking(keys, now) := w.readers[r];
      w.(readers := w.readers[r := Cleaning(Stale(w.table, keys, now), now, Answer(w.table, keys, now))])
    case Clean(r) =>
      var Cleaning(expired, now, answer) := w.readers[r];
      w.(table := if expired == {} then w.table else DeleteExpired(w.table, expired, now, guarded),
         readers := w.readers[r := Answered(now, answer)])
  }

  ghost predicate Legal(w: World, acts: seq<Action>, guarded: bool)
    decreases |acts|
  {
    acts == [] || (Enabled(w, acts[0]) && Legal(Next(w, acts[0], guarded), acts[1..], guarded))
  }

  ghost function Run(w: World, acts: seq<Action>, guarded: bool): World
    requires Legal(w, acts, guarded)
    decreases |acts|
  {
    if acts == [] then w else Run(Next(w, acts[0], guarded), acts[1..], guarded)
  }

  /** No reader has captured a time that lies ahead. */
  ghost predicate NoFuture(w: World) {
    forall r :: 0 <= r < |w.readers| ==> w.readers[r].now <= w.clock
  }

  lemma {:induction false} RunNoFuture(w: World, acts: seq<Action>, guarded: bool)
    requires NoFuture(w) && Legal(w, acts, guarded)
    ensures NoFuture(Run(w, acts, guarded))
    decreases |acts|
  {
    if acts != [] { RunNoFuture(Next(w, acts[0], guarded), acts[1..], guarded); }
  }

  /** A row a cleanup removes, though the clock has not reached its deadline. */
  ghost predicate Loses(w: World, r: nat, guarded: bool, k: Key)
    requires Enabled(w, Clean(r))
  {
    && k in w.table && (w.table[k].expires == None || w.clock < w.table[k].expires.value)
    && k !in Next(w, Clean(r), guarded).table
  }

  /** However clients write between a MySQL read and its cleanup, no live row is ever removed. */
  lemma GuardedCleanupSparesLiveRows(table: Table, clock: int, acts: seq<Action>, r: nat, k: Key)
    requires Legal(World(table, clock, []), acts, true)
    requires Enabled(Run(World(table, clock, []), acts, true), Clean(r))
    ensures !Loses(Run(World(table, clock, []), acts, true), r, true, k)
    ensures var w := Run(World(table, clock, []), acts, true);
            k in w.table && k !in Next(w, Clean(r), true).table ==>
              w.table[k].expires.Some? && w.table[k].expires.value <= w.clock
  {
    RunNoFuture(World(table, clock, []), acts, true);
  }

  /** Nothing is live under `k`. */
  ghost predicate Dead(w: World, k: Key) {
    k in w.table ==> w.table[k].expires.Some? && w.table[k].expires.value <= w.clock
  }

  /** A SELECT answers, for each key, with the value of a row whose deadline, if it has one, is still to come. */
  lemma SelectAnswers(w: World, r: nat, guarded: bool)
    requires Enabled(w, Select(r))
    ensures var keys, now, answer := w.readers[r].keys, w.readers[r].now, Next(w, Select(r), guarded).readers[r].answer;
            |answer| == |keys| && forall i :: 0 <= i < |keys| ==>
              answer[i] == if keys[i] in w.table && (w.table[keys[i]].expires == None || now < w.table[keys[i]].expires.value)
                           then Some(w.table[keys[i]].value) else None
  {}

  ghost predicate Writes(acts: seq<Action>, k: Key) {
    exists i :: 0 <= i < |acts| && acts[i].Write? && acts[i].key == k
  }

  /** Time, removals, cleanups and writes to other keys bring nothing back to life. */
  lemma {:induction false} OnlyWritesRevive(w: World, acts: seq<Action>, guarded: bool, k: Key)
    requires Legal(w, acts, guarded) && Dead(w, k) && !Writes(acts, k)
    ensures Dead(Run(w, acts, guarded), k)
    decreases |acts|
  {
    if acts != [] {
      assert Dead(Next(w, acts[0], guarded), k);
      var rest := acts[1..];
      assert forall i :: 0 <= i < |rest| ==> rest[i] == acts[i + 1];
      OnlyWritesRevive(Next(w, acts[0], guarded), rest, guarded, k);
    }
  }

  /** What a reader's SELECT found stays with it until its cleanup. */
  lemma {:induction false} ReaderKeepsFindings(w: World, acts: seq<Action>, guarded: bool, r: nat)
    requires Legal(w, acts, guarded) && r < |w.readers| && !w.readers[r].Asking?
    requires Enabled(Run(w, acts, guarded), Clean(r))
    ensures Run(w, acts, guarded).readers[r] == w.readers[r]
    decreases |acts|
  {
    if acts != [] { ReaderKeepsFindings(Next(w, acts[0], guarded), acts[1..], guarded, r); }
  }

  /** The SELECT of reader `r`, sent now, sees `k` expired. */
  predicate SeesExpired(w: World, r: nat, k: Key)
    requires Enabled(w, Select(r))
  {
    k in w.readers[r].keys && k in w.table && w.table[k].expires.Some? && w.table[k].expires.value <= w.readers[r].now
  }

  /** Whatever happens between a SELECT and the unguarded DELETE of SQLite that belongs to it: of the rows
      live at the DELETE it loses exactly those under a key the SELECT saw expired, and such a row was
      written in between. */
  lemma UnguardedCleanupLosesExactly(w: World, r: nat, acts: seq<Action>, k: Key)
    requires NoFuture(w) && Enabled(w, Select(r)) && Legal(Next(w, Select(r), false), acts, false)
    requires var v := Run(Next(w, Select(r), false), acts, false); Enabled(v, Clean(r)) && !Dead(v, k)
    ensures Loses(Run(Next(w, Select(r), false), acts, false), r, false, k) <==> SeesExpired(w, r, k)
    ensures SeesExpired(w, r, k) ==> Writes(acts, k)
  {
    var read := Next(w, Select(r), false);
    assert read.readers[r].Cleaning? && (k in read.readers[r].expired <==> SeesExpired(w, r, k));
    ReaderKeepsFindings(read, acts, false, r);
    if SeesExpired(w, r, k) && !Writes(acts, k) { OnlyWritesRevive(read, acts, false, k); }
  }

  /** So without a write to `k` in between nothing live under `k` is lost. */
  lemma UnwrittenRowsSurvive(w: World, r: nat, acts: seq<Action>, k: Key)
    requires NoFuture(w) && Enabled(w, Select(r)) && Legal(Next(w, Select(r), false), acts, false)
    requires Enabled(Run(Next(w, Select(r), false), acts, false), Clean(r)) && !Writes(acts, k)
    ensures !Loses(Run(Next(w, Select(r), false), acts, false), r, false, k)
  {
    var v := Run(Next(w, Select(r), false), acts, false);
    if Loses(v, r, false, k) { UnguardedCleanupLosesExactly(w, r, acts, k); }
  }

  /** Such a run exists: a row expires, is read, and is written anew before the cleanup. */
  lemma UnguardedCleanupCanLose(k: Key, value: string, clock: int) returns (acts: seq<Action>)
    ensures Legal(World(map[], clock, []), acts, false)
    ensures Enabled(Run(World(map[], clock, []), acts, false), Clean(0))
    ensures Loses(Run(World(map[], clock, []), acts, false), 0, false, k)
  {
    acts := [Write(k, Row(value, Some(clock))), Ask([k]), Select(0), Write(k, Row(value, None))];
    var w0 := World(map[], clock, []);
    var w1 := Next(w0, acts[0], false);
    var w2 := Next(w1, acts[1], false);
    var w3 := Next(w2, acts[2], false);
    assert k in w3.readers[0].expired;
    var w4 := Next(w3, acts[3], false);
    assert acts[1..][1..] == acts[2..] && acts[2..][1..] == acts[3..] && acts[3..][1..] == [];
    assert Legal(w4, [], false) && Legal(w3, acts[3..], false) && Legal(w2, acts[2..], false);
    assert Legal(w1, acts[1..], false) && Legal(w0, acts, false);
    assert Run(w3, acts[3..], false) == w4;
    assert Run(w2, acts[2..], false) == w4;
    assert Run(w1, acts[1..], false) == w4;
  }
}

/**
Keyv's own cleanup after a read, with other calls in between.  A read fetches what the adapter holds, decodes
it over several awaits, then compares deadlines with the clock, and deletes the keys it found expired one
more await later, by key alone.
*/
module CoreCleanup {
  import opened Wrappers
  import opened KeyvCore

  datatype Reader<V> =
    | Decoding(found: map<string, Envelope<V>>)
    | Deleting(expired: set<string>)
    | Answered

  datatype World<V> = World(store: map<string, Envelope<V>>, clock: int, readers: seq<Reader<V>>)

  /** `Remove` is a deletion by a client as well as the adapter's own reaping. */
  datatype Action<V> =
    | Tick(to: int)
    | Write(key: string, e: Envelope<V>)
    | Remove(key: string)
    | Fetch(keys: seq<string>)
    | Decide(r: nat)
    | Delete(r: nat)

  predicate Enabled<V>(w: World<V>, a: Action<V>) {
    match a
    case Tick(to) => to >= w.clock
    case Decide(r) => r < |w.readers| && w.readers[r].Decoding?
    case Delete(r) => r < |w.readers| && w.readers[r].Deleting?
    case _ => true
  }

  function Next<V>(w: World<V>, a: Action<V>): World<V>
    requires Enabled(w, a)
  {
    match a
    case Tick(to) => w.(clock := to)
    case Write(k, e) => w.(store := w.store[k := e])
    case Remove(k) => w.(store := w.store - {k})
    case Fetch(keys) => w.(readers := w.readers + [Decoding(map k | k in keys && k in w.store :: w.store[k])])
    case Decide(r) =>
      var found := w.readers[r].found;
      w.(readers := w.readers[r := Deleting(set k | k in found && Expired(found[k], w.clock))])
    case Delete(r) => w.(store := w.store - w.readers[r].expired, readers := w.readers[r := Answered])
  }

  ghost predicate Legal<V>(w: World<V>, acts: seq<Action<V>>)
    decreases |acts|
  {
    acts == [] || (Enabled(w, acts[0]) && Legal(Next(w, acts[0]), acts[1..]))
  }

  ghost function Run<V>(w: World<V>, acts: seq<Action<V>>): World<V>
    requires Legal(w, acts)
    decreases |acts|
  {
    if acts == [] then w else Run(Next(w, acts[0]), acts[1..])
  }

  ghost predicate Writes<V>(acts: seq<Action<V>>, k: string) {
    exists i :: 0 <= i < |acts| && acts[i].Write? && acts[i].key == k
  }

  ghost predicate Live<V>(w: World<V>, k: string) {
    k in w.store && (w.store[k].expires == None || w.clock <= w.store[k].expires.value)
  }

  /** A deletion after a read removes an entry that is not past its deadline. */
  ghost predicate Loses<V>(w: World<V>, r: nat, k: string)
    requires Enabled(w, Delete(r))
  {
    Live(w, k) && k !in Next(w, Delete(r)).store
  }

  /** Time goes on, and what is not written stays as it is or goes. */
  lemma {:induction false} Unwritten<V>(w: World<V>, acts: seq<Action<V>>, k: string)
    requires Legal(w, acts)
    ensures Run(w, acts).clock >= w.clock
    ensures !Writes(acts, k) && k in Run(w, acts).store ==> k in w.store && Run(w, acts).store[k] == w.store[k]
    decreases |acts|
  {
    if acts != [] {
      var rest := acts[1..];
      assert forall i :: 0 <= i < |rest| ==> rest[i] == acts[i + 1];
      Unwritten(Next(w, acts[0]), rest, k);
    }
  }

  /** What a reader has found stays with it until it goes on. */
  lemma {:induction false} ReaderWaits<V>(w: World<V>, acts: seq<Action<V>>, r: nat)
    requires Legal(w, acts) && r < |w.readers|
    ensures r < |Run(w, acts).readers|
    ensures var after := Run(w, acts).readers[r];
            && (w.readers[r].Answered? ==> after.Answered?)
            && (w.readers[r].Deleting? ==> after == w.readers[r] || after.Answered?)
            && (after.Decoding? ==> after == w.readers[r])
    decreases |acts|
  {
    if acts != [] { ReaderWaits(Next(w, acts[0]), acts[1..], r); }
  }

  /** The run of one read: it fetches in `w`, `before` happens while it decodes, it compares deadlines,
      `after` happens, and it is about to delete. */
  ghost predicate Reads<V>(w: World<V>, keys: seq<string>, before: seq<Action<V>>, after: seq<Action<V>>) {
    && Legal(Next(w, Fetch(keys)), before)
    && Enabled(Decided(w, keys, before), Decide(|w.readers|))
    && Legal(Next(Decided(w, keys, before), Decide(|w.readers|)), after)
    && Enabled(Run(Next(Decided(w, keys, before), Decide(|w.readers|)), after), Delete(|w.readers|))
  }

  /** When the deadlines are compared. */
  ghost function Decided<V>(w: World<V>, keys: seq<string>, before: seq<Action<V>>): World<V>
    requires Legal(Next(w, Fetch(keys)), before)
  {
    Run(Next(w, Fetch(keys)), before)
  }

  ghost function AtDelete<V>(w: World<V>, keys: seq<string>, before: seq<Action<V>>, after: seq<Action<V>>): World<V>
    requires Reads(w, keys, before, after)
  {
    Run(Next(Decided(w, keys, before), Decide(|w.readers|)), after)
  }

  /** Whatever happens during a read: of the entries live at its deletion it loses exactly those under a key
      whose fetched entry was past its deadline when deadlines were compared, and such an entry was written
      since the fetch. */
  lemma CleanupLosesExactly<V>(w: World<V>, keys: seq<string>, before: seq<Action<V>>, after: seq<Action<V>>, k: string)
    requires Reads(w, keys, before, after) && Live(AtDelete(w, keys, before, after), k)
    ensures Loses(AtDelete(w, keys, before, after), |w.readers|, k) <==>
            k in keys && k in w.store && w.store[k].expires.Some?
            && w.store[k].expires.value < Decided(w, keys, before).clock
    ensures Loses(AtDelete(w, keys, before, after), |w.readers|, k) ==> Writes(before, k) || Writes(after, k)
  {
    var r, fetched, decided := |w.readers|, Next(w, Fetch(keys)), Decided(w, keys, before);
    var decision := Next(decided, Decide(r));
    ReaderWaits(fetched, before, r);
    ReaderWaits(decision, after, r);
    Unwritten(fetched, before, k);
    Unwritten(decision, after, k);
  }

  /** Such a run exists for every key: an entry is fetched expired and written anew while it is decoded. */
  lemma CleanupCanLose<V>(k: string, first: V, second: V, clock: int)
    returns (w: World<V>, before: seq<Action<V>>)
    ensures Reads(w, [k], before, []) && Loses(AtDelete(w, [k], before, []), |w.readers|, k)
  {
    w := World(map[k := Envelope(first, Some(clock - 1))], clock, []);
    before := [Write(k, Envelope(second, None))];
    var fetched := Next(w, Fetch([k]));
    var written := Next(fetched, before[0]);
    assert before[1..] == [] && Legal(written, before[1..]);
    assert Run(fetched, before) == written;
    assert k in written.readers[0].found;
  }
}

/**
The keyset-pagination iterators of the SQL adapters.  Other clients may change the table in any way
between two batches: the table and the clock at the i-th statement are arbitrary functions of i, and
the database's answer is any rows that satisfy the statement on that table.
*/
module KeysetIterator {
  import opened Wrappers

  datatype Adapter = Sqlite | Postgres | Mysql

  datatype Row<V> = Row(value: V, expires: Option<int>)

  type Table<K, V> = map<K, Row<V>>

  ghost predicate StrictTotalOrder<K(!new)>(lt: (K, K) -> bool) {
    && (forall a :: !lt(a, a))
    && (forall a, b, c :: lt(a, b) && lt(b, c) ==> lt(a, c))
    && (forall a, b :: a != b ==> lt(a, b) || lt(b, a))
  }

  /** The row is present and `expires IS NULL OR expires > now`. */
  predicate Live<K, V>(t: Table<K, V>, k: K, now: int) {
    k in t && (t[k].expires.Some? ==> t[k].expires.value > now)
  }

  predicate After<K>(lt: (K, K) -> bool, cursor: Option<K>, k: K) { cursor.Some? ==> lt(cursor.value, k) }

  /** `rows` answers `SELECT ... WHERE key > cursor AND live ORDER BY key LIMIT limit`. */
  ghost predicate Answers<K(!new), V>(
    lt: (K, K) -> bool, t: Table<K, V>, now: int, cursor: Option<K>, limit: nat, rows: seq<(K, V)>)
  {
    && |rows| <= limit
    && (forall i, j :: 0 <= i < j < |rows| ==> lt(rows[i].0, rows[j].0))
    && (forall i :: 0 <= i < |rows| ==>
          Live(t, rows[i].0, now) && After(lt, cursor, rows[i].0) && t[rows[i].0].value == rows[i].1)
    && (forall k :: Live(t, k, now) && After(lt, cursor, k) ==>
          HasKey(rows, k) || (|rows| == limit && 0 < limit && lt(rows[limit - 1].0, k)))
  }

  ghost predicate HasKey<K, V>(rows: seq<(K, V)>, k: K) { exists i :: 0 <= i < |rows| && rows[i].0 == k }

  /** The batch size an adapter derives from the configured limit. */
  function BatchLimit(a: Adapter, configured: int): int {
    match a
    case Sqlite => if configured > 0 then configured else 10
    case Postgres => if configured != 0 then configured else 10
    case Mysql => if configured != 0 then configured else 10
  }

  /** Only a negative limit reaches the database, and only from Postgres and MySQL. */
  lemma BatchLimitPositive(a: Adapter, configured: int)
    ensures BatchLimit(a, configured) >= 1 <==> (a.Sqlite? || configured >= 0)
    ensures configured > 0 ==> BatchLimit(a, configured) == configured
    ensures configured == 0 || (a.Sqlite? && configured < 0) ==> BatchLimit(a, configured) == 10
    ensures !a.Sqlite? && configured < 0 ==> BatchLimit(a, configured) == configured
  {}

  /** Keys of a finite universe that a cursor has not passed yet. */
  ghost function Ahead<K(!new)>(lt: (K, K) -> bool, universe: set<K>, cursor: Option<K>): set<K> {
    set k | k in universe && After(lt, cursor, k)
  }

  lemma {:induction false} CursorAdvances<K(!new), V>(lt: (K, K) -> bool, universe: set<K>, cursor: Option<K>, rows: seq<(K, V)>)
    requires StrictTotalOrder(lt) && rows != []
    requires forall i, j :: 0 <= i < j < |rows| ==> lt(rows[i].0, rows[j].0)
    requires forall i :: 0 <= i < |rows| ==> rows[i].0 in universe && After(lt, cursor, rows[i].0)
    ensures |Ahead(lt, universe, Some(rows[|rows| - 1].0))| + |rows| <= |Ahead(lt, universe, cursor)|
    decreases |rows|
  {
    var last, front := rows[|rows| - 1].0, rows[..|rows| - 1];
    var small := Ahead(lt, universe, Some(last));
    if |rows| == 1 {
      assert small + {last} <= Ahead(lt, universe, cursor);
      SubsetSize(small + {last}, Ahead(lt, universe, cursor));
    } else {
      CursorAdvances(lt, universe, cursor, front);
      var middle := Ahead(lt, universe, Some(front[|front| - 1].0));
      assert small + {last} <= middle;
      SubsetSize(small + {last}, middle);
    }
  }

  lemma {:induction false} SubsetSize<T>(a: set<T>, b: set<T>)
    requires a <= b
    ensures |a| <= |b|
    decreases a
  {
    if a != {} {
      var x :| x in a;
      SubsetSize(a - {x}, b - {x});
    }
  }

  // ----- What an iteration has achieved after n batches -----

  ghost predicate Increasing<K(!new), V>(lt: (K, K) -> bool, rows: seq<(K, V)>) {
    forall a, b :: 0 <= a < b < |rows| ==> lt(rows[a].0, rows[b].0)
  }

  /** Some batch saw the pair as a live row. */
  ghost predicate Seen<K, V>(db: nat -> Table<K, V>, clock: nat -> int, n: nat, row: (K, V)) {
    exists i :: 0 <= i < n && row.0 in db(i) && db(i)[row.0].value == row.1
                && (db(i)[row.0].expires == None || clock(i) < db(i)[row.0].expires.value)
  }

  /** Some batch found the key absent or expired. */
  ghost predicate Missing<K, V>(db: nat -> Table<K, V>, clock: nat -> int, n: nat, k: K) {
    exists i :: 0 <= i < n && (k in db(i) ==> db(i)[k].expires.Some? && db(i)[k].expires.value <= clock(i))
  }

  ghost predicate Sound<K(!new), V>(
    lt: (K, K) -> bool, db: nat -> Table<K, V>, clock: nat -> int, n: nat, rows: seq<(K, V)>)
  {
    Increasing(lt, rows) && forall a :: 0 <= a < |rows| ==> Seen(db, clock, n, rows[a])
  }

  /** Every key up to the cursor was yielded or was missing at some batch. */
  ghost predicate Covered<K(!new), V>(
    lt: (K, K) -> bool, db: nat -> Table<K, V>, clock: nat -> int, n: nat, rows: seq<(K, V)>, cursor: Option<K>)
  {
    forall k :: HasKey(rows, k) || After(lt, cursor, k) || Missing(db, clock, n, k)
  }

  ghost predicate Complete<K(!new), V>(db: nat -> Table<K, V>, clock: nat -> int, n: nat, rows: seq<(K, V)>) {
    forall k :: HasKey(rows, k) || Missing(db, clock, n, k)
  }

  function Cursor<K, V>(rows: seq<(K, V)>): Option<K> {
    if rows == [] then None else Some(rows[|rows| - 1].0)
  }

  lemma KeysGrow<K, V>(before: seq<(K, V)>, entries: seq<(K, V)>, k: K)
    requires HasKey(before, k) || HasKey(entries, k)
    ensures HasKey(before + entries, k)
  {
    if i :| 0 <= i < |before| && before[i].0 == k {
      assert (before + entries)[i].0 == k;
    } else {
      var i :| 0 <= i < |entries| && entries[i].0 == k;
      assert (before + entries)[|before| + i].0 == k;
    }
  }

  lemma BatchSound<K(!new), V>(
    lt: (K, K) -> bool, db: nat -> Table<K, V>, clock: nat -> int, limit: nat, n: nat,
    before: seq<(K, V)>, entries: seq<(K, V)>)
    requires StrictTotalOrder(lt) && Sound(lt, db, clock, n, before)
    requires Answers(lt, db(n), clock(n), Cursor(before), limit, entries)
    ensures Sound(lt, db, clock, n + 1, before + entries)
  {
    var rows := before + entries;
    forall a | 0 <= a < |rows| ensures Seen(db, clock, n + 1, rows[a]) {
      if a < |before| {
        assert Seen(db, clock, n, before[a]);
      } else {
        assert rows[a] == entries[a - |before|];
      }
    }
  }

  lemma BatchCovers<K(!new), V>(
    lt: (K, K) -> bool, db: nat -> Table<K, V>, clock: nat -> int, limit: nat, n: nat,
    before: seq<(K, V)>, entries: seq<(K, V)>)
    requires StrictTotalOrder(lt) && Covered(lt, db, clock, n, before, Cursor(before)) && limit >= 1
    requires Answers(lt, db(n), clock(n), Cursor(before), limit, entries)
    ensures |entries| < limit ==> Complete(db, clock, n + 1, before + entries)
    ensures entries != [] ==> Covered(lt, db, clock, n + 1, before + entries, Cursor(before + entries))
  {
    var rows := before + entries;
    forall k ensures HasKey(rows, k) || Missing(db, clock, n + 1, k)
                     || (|entries| == limit && lt(entries[limit - 1].0, k)) {
      if HasKey(before, k) || HasKey(entries, k) {
        KeysGrow(before, entries, k);
      } else if After(lt, Cursor(before), k) {
        assert !Live(db(n), k, clock(n)) || (|entries| == limit && lt(entries[limit - 1].0, k));
      } else {
        assert Missing(db, clock, n, k);
      }
    }
  }

  lemma NothingYielded<K(!new), V>(lt: (K, K) -> bool, db: nat -> Table<K, V>, clock: nat -> int)
    ensures Sound(lt, db, clock, 0, []) && Covered(lt, db, clock, 0, [], None)
  {}

  /**
  The generator's loop.  `select(i, cursor)` is the answer to the i-th statement, `fails(i)` says
  that it was rejected: SQLite and Postgres then stop, MySQL throws to the consumer; either way the
  iteration is over and not `complete`.
  */
  method Iterate<K(!new, ==), V>(
    adapter: Adapter, configured: int, select: (nat, Option<K>) -> seq<(K, V)>, fails: nat -> bool,
    ghost lt: (K, K) -> bool, ghost db: nat -> Table<K, V>, ghost clock: nat -> int, ghost universe: set<K>)
    returns (yielded: seq<(K, V)>, batches: nat, complete: bool)
    requires StrictTotalOrder(lt)
    requires forall i :: db(i).Keys <= universe
    requires BatchLimit(adapter, configured) < 1 ==> fails(0)
    requires BatchLimit(adapter, configured) >= 1 ==>
               forall i, cursor :: Answers(lt, db(i), clock(i), cursor, BatchLimit(adapter, configured), select(i, cursor))
    // strictly increasing, hence no key twice, and every pair was a live row when its batch was read
    ensures Sound(lt, db, clock, batches, yielded)
    // a row is left out only if at some batch it was absent or expired
    ensures complete ==> Complete(db, clock, batches, yielded)
    // the iteration is complete unless the database refused a statement
    ensures complete <==> forall i :: 0 <= i < batches ==> !fails(i)
    // it ends after at most one batch more than the universe fills
    ensures |yielded| <= |universe|
    ensures batches >= 1 && (batches - 1) * BatchLimit(adapter, configured) <= |yielded|
  {
    var limit := BatchLimit(adapter, configured);
    var lastKey: Option<K> := None;
    hide Sound, Covered, Complete;
    yielded, batches, complete := [], 0, false;
    NothingYielded(lt, db, clock);
    assert Ahead(lt, universe, lastKey) == universe;
    while true
      invariant limit < 1 ==> batches == 0
      invariant |yielded| == batches * limit && lastKey == Cursor(yielded)
      invariant Sound(lt, db, clock, batches, yielded)
      invariant Covered(lt, db, clock, batches, yielded, lastKey)
      invariant forall i :: 0 <= i < batches ==> !fails(i)
      invariant |yielded| + |Ahead(lt, universe, lastKey)| <= |universe|
      decreases |Ahead(lt, universe, lastKey)|
    {
      if fails(batches) {
        SoundGrows(lt, db, clock, batches, yielded);
        return yielded, batches + 1, false;
      }
      var entries := select(batches, lastKey);
      BatchSound(lt, db, clock, limit, batches, yielded, entries);
      BatchCovers(lt, db, clock, limit, batches, yielded, entries);
      batches := batches + 1;
      if |entries| == 0 {
        assert yielded + entries == yielded;
        return yielded, batches, true;
      }
      CursorAdvances(lt, universe, lastKey, entries);
      yielded := yielded + entries;
      lastKey := Some(entries[|entries| - 1].0);
      if |entries| < limit { return yielded, batches, true; }
    }
  }

  lemma SoundGrows<K(!new), V>(
    lt: (K, K) -> bool, db: nat -> Table<K, V>, clock: nat -> int, n: nat, rows: seq<(K, V)>)
    requires Sound(lt, db, clock, n, rows)
    ensures Sound(lt, db, clock, n + 1, rows)
  {
    forall a | 0 <= a < |rows| ensures Seen(db, clock, n + 1, rows[a]) { assert Seen(db, clock, n, rows[a]); }
  }

  /** A row that is present and live whenever a batch is read is yielded, and exactly once. */
  lemma StableRowsAreYielded<K(!new), V>(
    lt: (K, K) -> bool, db: nat -> Table<K, V>, clock: nat -> int, n: nat, rows: seq<(K, V)>, k: K)
    requires StrictTotalOrder(lt) && Sound(lt, db, clock, n, rows) && Complete(db, clock, n, rows)
    requires forall i :: 0 <= i < n ==> Live(db(i), k, clock(i))
    ensures exists a :: 0 <= a < |rows| && rows[a].0 == k && forall b :: 0 <= b < |rows| && b != a ==> rows[b].0 != k
  {
    assert HasKey(rows, k);
    var a :| 0 <= a < |rows| && rows[a].0 == k;
    forall b | 0 <= b < |rows| && b != a ensures rows[b].0 != k {
      if b < a { assert lt(rows[b].0, rows[a].0); } else { assert lt(rows[a].0, rows[b].0); }
    }
  }
}

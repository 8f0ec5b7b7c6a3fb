/**
The adapter as the program writes it: an object whose fields are updated turn by turn.  Each method is one
turn, from the moment it gets control to its next `await`.  Its postcondition ties the new fields to the
step of the state machine with the same name, and every turn keeps `Valid()`, so what `Valid()` says holds
after any interleaving of turns.  `Run` makes the tie to whole runs of the machine explicit.
*/
module MysqlAdapter {
  import opened Wrappers
  import opened MysqlLifecycle
  import opened MysqlInvariant
  import opened MysqlSafety

  class KeyvMysql {
    var uri: string
    var table: string
    var keyLength: int
    var namespaceLength: int
    var pool: Option<PoolId>
    var connected: PoolId
    var disconnected: bool
    var disconnectGeneration: nat
    var disconnectPromise: Option<nat>
    var intervalExpiration: int
    var clearExpiredTimer: bool
    var queries: seq<Op>
    var pendingQueries: set<nat>
    var transitions: seq<Transition>
    var shutdowns: seq<Disc>
    var pools: nat
    var boot: Boot
    ghost var ended: set<PoolId>
    ghost var log: seq<Event>
    /** The configuration the object was constructed with. */
    ghost const initial: Config

    ghost function View(): State
      reads this
    {
      State(Config(uri, table, keyLength, namespaceLength), pool, connected, disconnected,
            disconnectGeneration, disconnectPromise, intervalExpiration, clearExpiredTimer, queries,
            pendingQueries, transitions, shutdowns, pools, boot, ended, log)
    }

    /** Between two turns: the invariants of the machine hold, no statement was sent to a pool after its
        `end()` was called, none was ended twice, and the timer is armed exactly when it should be. */
    ghost predicate Valid()
      reads this
    {
      && Sound(View(), initial)
      && SafeLog(log)
      && (clearExpiredTimer <==> !disconnected && intervalExpiration > 0)
    }

    /** A step of the machine from a valid state leads to a valid state. */
    ghost predicate Keeps(s: State, l: Label)
      requires Enabled(s, l)
    {
      var t := Next(s, l);
      && Sound(t, initial) && SafeLog(t.log) && (t.timer <==> !t.disconnected && t.interval > 0)
    }

    lemma StepKeeps(l: Label)
      requires Valid() && Enabled(View(), l)
      ensures Keeps(View(), l)
    {
      TurnIsSound(View(), l, initial);
      SoundMeans(Next(View(), l), initial);
    }

    constructor (config: Config, interval: int, statements: nat)
      requires ValidInit(config, interval, statements)
      ensures View() == Init(config, interval, statements) && Valid() && initial == config
    {
      hide Sound, SafeLog;
      initial := config;
      uri, table := config.uri, config.table;
      keyLength, namespaceLength := config.keyLength, config.namespaceLength;
      pool, connected, pools := Some(0), 0, 1;
      disconnected, disconnectGeneration, disconnectPromise := false, 0, None;
      queries, pendingQueries, transitions, shutdowns := [], {}, [], [];
      boot := Booting(Work(statements, false));
      intervalExpiration, clearExpiredTimer := interval, false;
      ended, log := {}, [];
      new;
      StartClearExpiredTimer();
      InitIsSound(config, interval, statements);
      SoundMeans(View(), config);
    }

    method StopClearExpiredTimer()
      modifies this`clearExpiredTimer
      ensures !clearExpiredTimer
    {
      clearExpiredTimer := false;
    }

    method StartClearExpiredTimer()
      modifies this`clearExpiredTimer
      ensures clearExpiredTimer == TimerFor(disconnected, intervalExpiration)
    {
      StopClearExpiredTimer();
      if disconnected { return; }
      if intervalExpiration > 0 { clearExpiredTimer := true; }
    }

    method SetIntervalExpiration(seconds: int) returns (ok: bool)
      requires Valid()
      modifies this
      ensures ok == Enabled(old(View()), SetInterval(seconds)) == (seconds <= 0 || seconds * 1000 <= 2_147_483_647)
      ensures intervalExpiration == if ok then seconds else old(intervalExpiration)
      ensures Valid() && View() == if ok then Next(old(View()), SetInterval(seconds)) else old(View())
    {
      hide Sound, SafeLog;
      ok := !(seconds > 0 && seconds * 1000 > 2_147_483_647);
      if ok {
        StepKeeps(SetInterval(seconds));
        intervalExpiration := seconds;
        StartClearExpiredTimer();
      }
    }

    /** `query`: `None` is the immediate rejection, otherwise the operation's index. */
    method SendQuery() returns (o: Option<nat>)
      requires Valid()
      modifies this
      ensures Valid() && View() == Next(old(View()), Query)
      ensures o == if old(disconnected) then None else Some(|old(queries)|)
    {
      hide Sound, SafeLog;
      StepKeeps(Query);
      if disconnected { return None; }
      o := Some(|queries|);
      pendingQueries := pendingQueries + {|queries|};
      queries := queries + [Op(connected, Waiting)];
    }

    method Enqueue(req: Request)
      modifies this
      ensures View() == MysqlLifecycle.Enqueue(old(View()), req)
    {
      ghost var i := |transitions|;
      transitions := transitions + [Transition(req, |shutdowns|, Queued)];
      log := log + [Requested(i)];
    }

    method Reconnect(uri: string)
      requires Valid()
      modifies this
      ensures Valid() && View() == Next(old(View()), CallReconnect(uri))
    {
      hide Sound, SafeLog;
      StepKeeps(CallReconnect(uri));
      var previousDisconnect, generation := disconnectPromise, disconnectGeneration;
      Enqueue(Request.Reconnect(uri, previousDisconnect, generation));
    }

    method UseTable(table: string)
      requires Valid()
      modifies this
      ensures Valid() && View() == Next(old(View()), CallUseTable(table))
    {
      hide Sound, SafeLog;
      StepKeeps(CallUseTable(table));
      Enqueue(Request.UseTable(table));
    }

    method ResizeKeyColumns(keyLength: Option<int>, namespaceLength: Option<int>)
      requires Valid()
      modifies this
      ensures Valid() && View() == Next(old(View()), CallResize(keyLength, namespaceLength))
    {
      hide Sound, SafeLog;
      StepKeeps(CallResize(keyLength, namespaceLength));
      Enqueue(Resize(keyLength, namespaceLength));
    }

    /** `disconnect`; the result is the shutdown whose promise the caller gets. */
    method Disconnect() returns (d: nat)
      requires Valid()
      modifies this
      ensures Valid() && View() == Next(old(View()), CallDisconnect)
      ensures d == if old(disconnectPromise).Some? then old(disconnectPromise).value else |old(shutdowns)|
    {
      hide Sound, SafeLog;
      StepKeeps(CallDisconnect);
      MarkDisconnected();
      if disconnectPromise.Some? { d := disconnectPromise.value; } else { d := StartShutdown(); }
    }

    method MarkDisconnected()
      modifies this`clearExpiredTimer, this`disconnectGeneration, this`disconnected
      ensures View() == old(View()).(timer := false, disconnected := true,
                                     gen := if old(disconnected) then old(disconnectGeneration) else old(disconnectGeneration) + 1)
    {
      StopClearExpiredTimer();
      if !disconnected { disconnectGeneration := disconnectGeneration + 1; }
      disconnected := true;
    }

    /** The shutdown collects what it will wait for. */
    method StartShutdown() returns (d: nat)
      modifies this`shutdowns, this`disconnectPromise, this`log
      ensures d == |old(shutdowns)|
      ensures View() == Log(old(View()).(disconnecting := Some(d),
                              discs := old(shutdowns) + [Disc(old(pendingQueries), old(connected), |old(transitions)|, Collecting)]),
                            Disconnecting(d))
    {
      d := |shutdowns|;
      shutdowns := shutdowns + [Disc(pendingQueries, connected, |transitions|, Collecting)];
      disconnectPromise := Some(d);
      log := log + [Disconnecting(d)];
    }

    method SetTransition(i: nat, phase: Phase)
      requires i < |transitions|
      modifies this`transitions
      ensures View() == SetPhase(old(View()), i, phase)
    {
      transitions := transitions[i := transitions[i].(phase := phase)];
    }

    ghost method EndOf(p: PoolId)
      modifies this`ended, this`log
      ensures View() == BeginEnd(old(View()), p)
    {
      ended, log := ended + {p}, log + [EndStarted(p)];
    }

    method CreateNextPool(i: nat, statements: nat, created: bool)
      requires i < |transitions|
      modifies this
      ensures View() == CreatePool(old(View()), i, statements, created)
    {
      if created {
        var next := pools;
        pools := pools + 1;
        SetTransition(i, Preparing(next, Work(statements, false)));
      } else {
        SetTransition(i, Finished(false));
      }
    }

    /** A transition gets its turn in the queue. */
    method StartTransition(i: nat, statements: nat, created: bool)
      requires Valid() && Enabled(View(), Start(i, statements, created))
      modifies this
      ensures Valid() && View() == Next(old(View()), Start(i, statements, created))
    {
      hide Sound, SafeLog;
      StepKeeps(Start(i, statements, created));
      match transitions[i].req
      case Reconnect(_, after, _) =>
        if after.Some? { SetTransition(i, AwaitingDisconnect); } else { CreateNextPool(i, statements, created); }
      case UseTable(newTable) =>
        if disconnected {
          SetTransition(i, Finished(false));
        } else if newTable == table {
          SetTransition(i, Finished(true));
        } else {
          SetTransition(i, AwaitingConnection(connected, Table(newTable, disconnectGeneration)));
        }
      case Resize(newKeyLength, newNamespaceLength) =>
        if disconnected { SetTransition(i, Finished(false)); return; }
        var k, n := newKeyLength.GetOr(keyLength), newNamespaceLength.GetOr(namespaceLength);
        if !ValidLimits(k, n) { SetTransition(i, Finished(false)); return; }
        if k == keyLength && n == namespaceLength { SetTransition(i, Finished(true)); return; }
        SetTransition(i, AwaitingConnection(connected, Limits(k, n)));
    }

    method AfterPreviousDisconnect(i: nat, statements: nat, created: bool)
      requires Valid() && Enabled(View(), AfterDisconnect(i, statements, created))
      modifies this
      ensures Valid() && View() == Next(old(View()), AfterDisconnect(i, statements, created))
    {
      hide Sound, SafeLog;
      StepKeeps(AfterDisconnect(i, statements, created));
      if shutdowns[transitions[i].req.after.value].phase.ok {
        CreateNextPool(i, statements, created);
      } else {
        SetTransition(i, Finished(false));
      }
    }

    method AfterConnected(i: nat, statements: nat)
      requires Valid() && Enabled(View(), AfterConnection(i, statements))
      modifies this
      ensures Valid() && View() == Next(old(View()), AfterConnection(i, statements))
    {
      hide Sound, SafeLog;
      StepKeeps(AfterConnection(i, statements));
      var p := transitions[i].phase;
      if p.conn == 0 && boot != Booted(true) {
        SetTransition(i, Finished(false));
      } else {
        SetTransition(i, Altering(p.conn, p.target, Work(statements, false)));
      }
    }

    method SendWork(i: nat)
      requires Valid() && Enabled(View(), IssueWork(i))
      modifies this
      ensures Usable(PoolOf(old(transitions[i].phase)), old(ended))
      ensures Valid() && View() == Next(old(View()), IssueWork(i))
    {
      hide Sound, SafeLog;
      UsablePools(View(), initial);
      StepKeeps(IssueWork(i));
      var p := transitions[i].phase;
      log := log + [Issued(WorkPool(p))];
      SetTransition(i, p.(work := Work(p.work.left - 1, true)));
    }

    method WorkAnswered(i: nat, ok: bool)
      requires Valid() && Enabled(View(), AnswerWork(i, ok))
      modifies this
      ensures Usable(PoolOf(old(transitions[i].phase)), old(ended))
      ensures Valid() && View() == Next(old(View()), AnswerWork(i, ok))
    {
      hide Sound, SafeLog;
      UsablePools(View(), initial);
      StepKeeps(AnswerWork(i, ok));
      var p := transitions[i].phase;
      if ok {
        SetTransition(i, p.(work := p.work.(busy := false)));
      } else if p.Preparing? {
        EndOf(p.next);
        SetTransition(i, Discarding(p.next));
      } else {
        SetTransition(i, Finished(false));
      }
    }

    method UsePool(newUri: string, next: PoolId)
      modifies this`uri, this`pool, this`connected, this`disconnected, this`disconnectPromise, this`clearExpiredTimer
      ensures uri == newUri && pool == Some(next) && connected == next
      ensures !disconnected && disconnectPromise == None && clearExpiredTimer == TimerFor(false, intervalExpiration)
    {
      uri := newUri;
      pool, connected := Some(next), next;
      disconnected, disconnectPromise := false, None;
      StartClearExpiredTimer();
    }

    /** The switch of a `reconnect`: from here on queries go to the next pool. */
    method SwitchPool(i: nat, newUri: string, next: PoolId)
      requires i < |transitions|
      modifies this
      ensures View() == PublishPool(old(View()), i, newUri, next)
    {
      var previousPool, previousConnected, previousQueries := pool, connected, pendingQueries;
      UsePool(newUri, next);
      var t := transitions[i];
      log := log + [Published(i, t.req)];
      transitions := transitions[i := t.(phase := Draining(previousPool, previousConnected, previousQueries))];
    }

    method AdoptConfig(i: nat, newTable: string, k: int, n: int)
      requires i < |transitions|
      modifies this
      ensures View() == PublishConfig(old(View()), i, Config(old(uri), newTable, k, n))
    {
      log := log + [Published(i, transitions[i].req)];
      table, keyLength, namespaceLength := newTable, k, n;
      SetTransition(i, Finished(true));
    }

    /** A `reconnect` has prepared its table: it switches pools, unless a shutdown has cancelled it. */
    method PublishNextPool(i: nat)
      requires Valid() && Enabled(View(), FinishWork(i)) && transitions[i].phase.Preparing?
      modifies this
      ensures Usable(PoolOf(old(transitions[i].phase)), old(ended))
      ensures Valid() && View() == Next(old(View()), FinishWork(i))
    {
      hide Sound, SafeLog;
      UsablePools(View(), initial);
      StepKeeps(FinishWork(i));
      SoundMeans(View(), initial);
      var t := transitions[i];
      if t.req.gen != disconnectGeneration {
        EndOf(t.phase.next);
        SetTransition(i, Discarding(t.phase.next));
      } else {
        SwitchPool(i, t.req.uri, t.phase.next);
      }
    }

    /** A `useTable` or `resizeKeyColumns` has changed the schema: it adopts the new setting. */
    method PublishTarget(i: nat)
      requires Valid() && Enabled(View(), FinishWork(i)) && transitions[i].phase.Altering?
      modifies this
      ensures Valid() && View() == Next(old(View()), FinishWork(i))
    {
      hide Sound, SafeLog;
      StepKeeps(FinishWork(i));
      var target := transitions[i].phase.target;
      match target
      case Table(newTable, generation) =>
        if generation != disconnectGeneration {
          SetTransition(i, Finished(false));
        } else {
          AdoptConfig(i, newTable, keyLength, namespaceLength);
        }
      case Limits(k, n) => AdoptConfig(i, table, k, n);
    }

    method DiscardEnded(i: nat, ok: bool)
      requires Valid() && Enabled(View(), EndDiscarded(i, ok))
      modifies this
      ensures Valid() && View() == Next(old(View()), EndDiscarded(i, ok))
    {
      hide Sound, SafeLog;
      StepKeeps(EndDiscarded(i, ok));
      log := log + [EndSettled(transitions[i].phase.next, ok)];
      SetTransition(i, Finished(false));
    }

    /** The previous pool's queries have settled, so it can be closed. */
    method PreviousDrained(i: nat)
      requires Valid() && Enabled(View(), Drained(i))
      modifies this
      ensures Usable(PoolOf(old(transitions[i].phase)), old(ended))
      ensures Valid() && View() == Next(old(View()), Drained(i))
    {
      hide Sound, SafeLog;
      UsablePools(View(), initial);
      StepKeeps(Drained(i));
      var previousPool := transitions[i].phase.prev;
      if previousPool.Some? {
        EndOf(previousPool.value);
        SetTransition(i, Retiring(previousPool.value));
      } else {
        SetTransition(i, Finished(true));
      }
    }

    method PreviousEnded(i: nat, ok: bool)
      requires Valid() && Enabled(View(), EndRetired(i, ok))
      modifies this
      ensures Valid() && View() == Next(old(View()), EndRetired(i, ok))
    {
      hide Sound, SafeLog;
      StepKeeps(EndRetired(i, ok));
      log := log + [EndSettled(transitions[i].phase.prior, ok)];
      SetTransition(i, Finished(ok));
    }

    /** Everything a shutdown collected has settled: it ends whatever pool is published now. */
    method ClosePool(d: nat)
      requires Valid() && Enabled(View(), EndPool(d))
      modifies this
      ensures Usable(old(pool), old(ended))
      ensures Valid() && View() == Next(old(View()), EndPool(d))
    {
      hide Sound, SafeLog;
      UsablePools(View(), initial);
      StepKeeps(EndPool(d));
      if pool.Some? {
        EndOf(pool.value);
        shutdowns := shutdowns[d := shutdowns[d].(phase := Ending(pool.value))];
      } else {
        shutdowns := shutdowns[d := shutdowns[d].(phase := Closed(true))];
      }
    }

    method PoolClosed(d: nat, ok: bool)
      requires Valid() && Enabled(View(), PoolEnded(d, ok))
      modifies this
      ensures Valid() && View() == Next(old(View()), PoolEnded(d, ok))
    {
      hide Sound, SafeLog;
      StepKeeps(PoolEnded(d, ok));
      log := log + [EndSettled(shutdowns[d].phase.pool, ok)];
      shutdowns := shutdowns[d := shutdowns[d].(phase := Closed(ok))];
      if ok { pool := None; }
    }

    /** The step of a query whose `_connected` promise has settled. */
    ghost function Connected(o: nat): Label
      reads this
      requires o < |queries|
    {
      if ConnOk(View(), queries[o].pool) then IssueOp(o) else RejectOp(o)
    }

    /** A query's `_connected` promise has settled: it is sent to that promise's pool, or rejected. */
    method QueryConnected(o: nat)
      requires Valid() && o < |queries| && queries[o].phase == Waiting && ConnSettled(View(), queries[o].pool)
      modifies this
      ensures Usable(Some(old(queries[o].pool)), old(ended))
      ensures Valid() && View() == Next(old(View()), old(Connected(o)))
    {
      hide Sound, SafeLog;
      UsablePools(View(), initial);
      StepKeeps(Connected(o));
      var p := queries[o].pool;
      if p == 0 && boot != Booted(true) {
        queries := queries[o := queries[o].(phase := Settled)];
      } else {
        log := log + [Issued(p)];
        queries := queries[o := queries[o].(phase := Running)];
      }
    }

    method QueryAnswered(o: nat)
      requires Valid() && Enabled(View(), AnswerOp(o))
      modifies this
      ensures Valid() && View() == Next(old(View()), AnswerOp(o))
    {
      hide Sound, SafeLog;
      StepKeeps(AnswerOp(o));
      queries := queries[o := queries[o].(phase := Settled)];
    }

    method QueryForgotten(o: nat)
      requires Valid() && Enabled(View(), ForgetOp(o))
      modifies this
      ensures Valid() && View() == Next(old(View()), ForgetOp(o))
    {
      hide Sound, SafeLog;
      StepKeeps(ForgetOp(o));
      pendingQueries := pendingQueries - {o};
    }

    // ----- The constructor's own table initialization -----

    method SendInitialization()
      requires Valid() && Enabled(View(), IssueBoot)
      modifies this
      ensures Usable(Some(0), old(ended))
      ensures Valid() && View() == Next(old(View()), IssueBoot)
    {
      hide Sound, SafeLog;
      UsablePools(View(), initial);
      StepKeeps(IssueBoot);
      log := log + [Issued(0)];
      boot := Booting(Work(boot.work.left - 1, true));
    }

    method InitializationAnswered(ok: bool)
      requires Valid() && Enabled(View(), AnswerBoot(ok))
      modifies this
      ensures Valid() && View() == Next(old(View()), AnswerBoot(ok))
    {
      hide Sound, SafeLog;
      StepKeeps(AnswerBoot(ok));
      boot := if ok then Booting(boot.work.(busy := false)) else Booted(false);
    }

    method InitializationDone()
      requires Valid() && Enabled(View(), FinishBoot)
      modifies this
      ensures Valid() && View() == Next(old(View()), FinishBoot)
    {
      hide Sound, SafeLog;
      StepKeeps(FinishBoot);
      boot := Booted(true);
    }

    // ----- Runs -----

    /** One turn of the event loop: a call of a client or the continuation after an `await`. */
    method Turn(l: Label)
      requires Valid() && Enabled(View(), l)
      modifies this
      ensures Valid() && View() == Next(old(View()), l)
    {
      hide Sound, SafeLog;
      match l
      case Query => var _ := SendQuery();
      case CallReconnect(uri) => Reconnect(uri);
      case CallUseTable(table) => UseTable(table);
      case CallResize(k, n) => ResizeKeyColumns(k, n);
      case CallDisconnect => var _ := Disconnect();
      case SetInterval(seconds) => var _ := SetIntervalExpiration(seconds);
      case IssueOp(o) => QueryConnected(o);
      case RejectOp(o) => QueryConnected(o);
      case AnswerOp(o) => QueryAnswered(o);
      case ForgetOp(o) => QueryForgotten(o);
      case IssueBoot => SendInitialization();
      case AnswerBoot(ok) => InitializationAnswered(ok);
      case FinishBoot => InitializationDone();
      case Start(i, n, created) => StartTransition(i, n, created);
      case AfterDisconnect(i, n, created) => AfterPreviousDisconnect(i, n, created);
      case AfterConnection(i, n) => AfterConnected(i, n);
      case IssueWork(i) => SendWork(i);
      case AnswerWork(i, ok) => WorkAnswered(i, ok);
      case FinishWork(i) => if transitions[i].phase.Preparing? { PublishNextPool(i); } else { PublishTarget(i); }
      case EndDiscarded(i, ok) => DiscardEnded(i, ok);
      case Drained(i) => PreviousDrained(i);
      case EndRetired(i, ok) => PreviousEnded(i, ok);
      case EndPool(d) => ClosePool(d);
      case PoolEnded(d, ok) => PoolClosed(d, ok);
    }

    /** Any run of the machine is taken turn by turn by the object, which is valid all along. */
    method Run(ls: seq<Label>)
      requires Valid() && Legal(View(), ls)
      modifies this
      ensures Valid() && View() == Exec(old(View()), ls)
    {
      hide Sound, SafeLog, Enabled, Next;
      for i := 0 to |ls|
        invariant Valid() && Legal(old(View()), ls[..i]) && View() == Exec(old(View()), ls[..i])
      {
        LegalPrefix(old(View()), ls, i + 1);
        assert ls[..i + 1][..i] == ls[..i];
        Turn(ls[i]);
      }
      assert ls[..|ls|] == ls;
    }
  }

  lemma {:induction false} LegalPrefix(s: State, ls: seq<Label>, i: nat)
    requires Legal(s, ls) && i <= |ls|
    ensures Legal(s, ls[..i])
    decreases |ls|
  {
    if i < |ls| {
      LegalPrefix(s, ls[..|ls| - 1], i);
      assert ls[..|ls| - 1][..i] == ls[..i];
    } else {
      assert ls[..i] == ls;
    }
  }
}

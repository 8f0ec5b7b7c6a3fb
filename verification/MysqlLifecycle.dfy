/**
The connection lifecycle of the MySQL adapter as a state machine.

JavaScript runs one turn at a time, so a step of the machine is the code between two `await`s.
Everything else is a choice of the step's label: which continuation runs next, what the driver
answers, and when a client calls `query`, `reconnect`, `useTable`, `resizeKeyColumns`,
`disconnect` or sets the cleanup interval.  The guards of the steps are only what the program
awaits; that a pool is still usable is never a guard, it is what is proved.
*/
module MysqlLifecycle {
  import opened Wrappers

  type PoolId = nat

  /** A statement sent through `query`; it is bound to the `_connected` promise of one pool. */
  datatype OpPhase = Waiting | Running | Settled
  datatype Op = Op(pool: PoolId, phase: OpPhase)

  /** Statements that one `initializeTable` still has to issue; `busy` while one is at the driver. */
  datatype Work = Work(left: nat, busy: bool)

  /** The constructor's own `initializeTable`, whose promise is the first `_connected`. */
  datatype Boot = Booting(work: Work) | Booted(ok: bool)

  datatype Config = Config(uri: string, table: string, keyLength: int, namespaceLength: int)

  datatype Request =
    | Reconnect(uri: string, after: Option<nat>, gen: nat)
    | UseTable(table: string)
    | Resize(keyLength: Option<int>, namespaceLength: Option<int>)

  /** What a running `useTable` or `resizeKeyColumns` will write to the configuration. */
  datatype Target = Table(table: string, gen: nat) | Limits(keyLength: int, namespaceLength: int)

  datatype Phase =
    | Queued
    | AwaitingDisconnect
    | Preparing(next: PoolId, work: Work)
    | Discarding(next: PoolId)
    | Draining(prev: Option<PoolId>, prevConnected: PoolId, ops: set<nat>)
    | Retiring(prior: PoolId)
    | AwaitingConnection(conn: PoolId, target: Target)
    | Altering(conn: PoolId, target: Target, work: Work)
    | Finished(ok: bool)

  /** `stamp` counts the shutdowns that began before the transition was requested. */
  datatype Transition = Transition(req: Request, stamp: nat, phase: Phase)

  datatype Closing = Collecting | Ending(pool: PoolId) | Closed(ok: bool)

  /** One shutdown: what it awaits, captured when `disconnect` was called. */
  datatype Disc = Disc(ops: set<nat>, conn: PoolId, trans: nat, phase: Closing)

  datatype Event =
    | Requested(i: nat)
    | Disconnecting(d: nat)
    | Published(i: nat, req: Request)
    | Issued(pool: PoolId)
    | EndStarted(pool: PoolId)
    | EndSettled(pool: PoolId, ok: bool)

  /** The adapter's fields, the promises it holds, and (`ended`, `log`) the history. */
  datatype State = State(
    config: Config,
    pool: Option<PoolId>,
    connected: PoolId,
    disconnected: bool,
    gen: nat,
    disconnecting: Option<nat>,
    interval: int,
    timer: bool,
    ops: seq<Op>,
    pending: set<nat>,
    trans: seq<Transition>,
    discs: seq<Disc>,
    pools: nat,
    boot: Boot,
    ended: set<PoolId>,
    log: seq<Event>)

  datatype Label =
    // calls of clients
    | Query
    | CallReconnect(uri: string)
    | CallUseTable(table: string)
    | CallResize(keyLength: Option<int>, namespaceLength: Option<int>)
    | CallDisconnect
    | SetInterval(seconds: int)
    // continuations of queries
    | IssueOp(o: nat)
    | RejectOp(o: nat)
    | AnswerOp(o: nat)
    | ForgetOp(o: nat)
    // the constructor's table initialization
    | IssueBoot
    | AnswerBoot(ok: bool)
    | FinishBoot
    // continuations of the configuration transitions
    | Start(i: nat, statements: nat, created: bool)
    | AfterDisconnect(i: nat, statements: nat, created: bool)
    | AfterConnection(i: nat, statements: nat)
    | IssueWork(i: nat)
    | AnswerWork(i: nat, ok: bool)
    | FinishWork(i: nat)
    | EndDiscarded(i: nat, ok: bool)
    | Drained(i: nat)
    | EndRetired(i: nat, ok: bool)
    // continuations of a shutdown
    | EndPool(d: nat)
    | PoolEnded(d: nat, ok: bool)

  /** `initializeTable` always sends seven statements and at most eleven. */
  predicate InitStatements(n: nat) { 7 <= n <= 11 }

  const MAX_INDEX_BYTES := 3072

  /** `validateCompositeIndexLength` accepts the two limits. */
  predicate ValidLimits(keyLength: int, namespaceLength: int) {
    0 < keyLength <= 0x1f_ffff_ffff_ffff && 0 < namespaceLength <= 0x1f_ffff_ffff_ffff
    && (keyLength + namespaceLength) * 4 <= MAX_INDEX_BYTES
  }

  /** The timer `startClearExpiredTimer` leaves behind. */
  function TimerFor(disconnected: bool, interval: int): bool { !disconnected && interval > 0 }

  predicate ConnSettled(s: State, p: PoolId) { p == 0 ==> s.boot.Booted? }
  predicate ConnOk(s: State, p: PoolId) { p == 0 ==> s.boot == Booted(true) }

  ghost predicate OpsSettled(s: State, ops: set<nat>) {
    forall o :: o in ops && o < |s.ops| ==> s.ops[o].phase == Settled
  }

  ghost predicate TransFinished(s: State, n: nat) {
    0 < n <= |s.trans| ==> s.trans[n - 1].phase.Finished?
  }

  predicate IsDisc(s: State, d: nat) { d < |s.discs| }
  predicate IsTrans(s: State, i: nat) { i < |s.trans| }
  predicate IsOp(s: State, o: nat) { o < |s.ops| }

  /** What the program awaits before the step can run. */
  ghost predicate Enabled(s: State, l: Label) {
    match l
    case Query | CallReconnect(_) | CallUseTable(_) | CallResize(_, _) | CallDisconnect => true
    case SetInterval(v) => v > 0 ==> v * 1000 <= 2_147_483_647
    case IssueOp(o) => IsOp(s, o) && s.ops[o].phase == Waiting && ConnOk(s, s.ops[o].pool)
    case RejectOp(o) =>
      IsOp(s, o) && s.ops[o].phase == Waiting && ConnSettled(s, s.ops[o].pool) && !ConnOk(s, s.ops[o].pool)
    case AnswerOp(o) => IsOp(s, o) && s.ops[o].phase == Running
    case ForgetOp(o) => IsOp(s, o) && s.ops[o].phase == Settled && o in s.pending
    case IssueBoot => s.boot.Booting? && s.boot.work.left > 0 && !s.boot.work.busy
    case AnswerBoot(_) => s.boot.Booting? && s.boot.work.busy
    case FinishBoot => s.boot.Booting? && s.boot.work == Work(0, false)
    case Start(i, n, _) =>
      IsTrans(s, i) && s.trans[i].phase == Queued && TransFinished(s, i) && InitStatements(n)
    case AfterDisconnect(i, n, _) =>
      IsTrans(s, i) && s.trans[i].phase == AwaitingDisconnect && InitStatements(n)
      && s.trans[i].req.Reconnect? && s.trans[i].req.after.Some?
      && IsDisc(s, s.trans[i].req.after.value) && s.discs[s.trans[i].req.after.value].phase.Closed?
    case AfterConnection(i, n) =>
      IsTrans(s, i) && s.trans[i].phase.AwaitingConnection? && ConnSettled(s, s.trans[i].phase.conn)
      && (if s.trans[i].phase.target.Table? then InitStatements(n) else n == 2)
    case IssueWork(i) =>
      IsTrans(s, i) && (s.trans[i].phase.Preparing? || s.trans[i].phase.Altering?)
      && s.trans[i].phase.work.left > 0 && !s.trans[i].phase.work.busy
    case AnswerWork(i, _) =>
      IsTrans(s, i) && (s.trans[i].phase.Preparing? || s.trans[i].phase.Altering?) && s.trans[i].phase.work.busy
    case FinishWork(i) =>
      IsTrans(s, i) && (s.trans[i].phase.Preparing? || s.trans[i].phase.Altering?)
      && s.trans[i].phase.work == Work(0, false)
    case EndDiscarded(i, _) => IsTrans(s, i) && s.trans[i].phase.Discarding?
    case Drained(i) =>
      IsTrans(s, i) && s.trans[i].phase.Draining?
      && OpsSettled(s, s.trans[i].phase.ops) && ConnSettled(s, s.trans[i].phase.prevConnected)
    case EndRetired(i, _) => IsTrans(s, i) && s.trans[i].phase.Retiring?
    case EndPool(d) =>
      IsDisc(s, d) && s.discs[d].phase == Collecting
      && OpsSettled(s, s.discs[d].ops) && ConnSettled(s, s.discs[d].conn) && TransFinished(s, s.discs[d].trans)
    case PoolEnded(d, _) => IsDisc(s, d) && s.discs[d].phase.Ending?
  }

  function Log(s: State, e: Event): State { s.(log := s.log + [e]) }

  function SetPhase(s: State, i: nat, p: Phase): State
    requires IsTrans(s, i)
  {
    s.(trans := s.trans[i := s.trans[i].(phase := p)])
  }

  function SetClosing(s: State, d: nat, p: Closing): State
    requires IsDisc(s, d)
  {
    s.(discs := s.discs[d := s.discs[d].(phase := p)])
  }

  function SetOp(s: State, o: nat, p: OpPhase): State
    requires IsOp(s, o)
  {
    s.(ops := s.ops[o := s.ops[o].(phase := p)])
  }

  /** `pool.end()` is called: from here on the pool must not be used. */
  function BeginEnd(s: State, p: PoolId): State { Log(s.(ended := s.ended + {p}), EndStarted(p)) }

  function Issue(s: State, p: PoolId): State { Log(s, Issued(p)) }

  /** `query`: rejected at once when disconnected, otherwise bound to the current `_connected`. */
  function DoQuery(s: State): State {
    if s.disconnected then s
    else s.(ops := s.ops + [Op(s.connected, Waiting)], pending := s.pending + {|s.ops|})
  }

  /** `enqueueConfigurationTransition`: chained after every earlier transition. */
  function Enqueue(s: State, req: Request): State {
    Log(s.(trans := s.trans + [Transition(req, |s.discs|, Queued)]), Requested(|s.trans|))
  }

  /** `disconnect`: a call on a connected adapter starts one shutdown, any other call shares it. */
  function DoDisconnect(s: State): State {
    var t := s.(timer := false, gen := if s.disconnected then s.gen else s.gen + 1, disconnected := true);
    if s.disconnecting.Some? then t
    else Log(t.(disconnecting := Some(|s.discs|),
                discs := s.discs + [Disc(s.pending, s.connected, |s.trans|, Collecting)]),
             Disconnecting(|s.discs|))
  }

  /** `createPool` in a `reconnect`: a malformed URI throws before there is a pool. */
  function CreatePool(s: State, i: nat, statements: nat, created: bool): State
    requires IsTrans(s, i)
  {
    if created then SetPhase(s.(pools := s.pools + 1), i, Preparing(s.pools, Work(statements, false)))
    else SetPhase(s, i, Finished(false))
  }

  function DoStart(s: State, i: nat, statements: nat, created: bool): State
    requires IsTrans(s, i)
  {
    match s.trans[i].req
    case Reconnect(_, after, _) =>
      if after.Some? then SetPhase(s, i, AwaitingDisconnect) else CreatePool(s, i, statements, created)
    case UseTable(table) =>
      if s.disconnected then SetPhase(s, i, Finished(false))
      else if table == s.config.table then SetPhase(s, i, Finished(true))
      else SetPhase(s, i, AwaitingConnection(s.connected, Table(table, s.gen)))
    case Resize(kl, nl) =>
      var keyLength, namespaceLength := kl.GetOr(s.config.keyLength), nl.GetOr(s.config.namespaceLength);
      if s.disconnected || !ValidLimits(keyLength, namespaceLength) then SetPhase(s, i, Finished(false))
      else if keyLength == s.config.keyLength && namespaceLength == s.config.namespaceLength
      then SetPhase(s, i, Finished(true))
      else SetPhase(s, i, AwaitingConnection(s.connected, Limits(keyLength, namespaceLength)))
  }

  /** The switch of a `reconnect` whose pool is ready and whose generation is still current. */
  function PublishPool(s: State, i: nat, uri: string, next: PoolId): State
    requires IsTrans(s, i)
  {
    s.(config := s.config.(uri := uri), pool := Some(next), connected := next, disconnected := false,
       disconnecting := None, timer := TimerFor(false, s.interval),
       trans := s.trans[i := s.trans[i].(phase := Draining(s.pool, s.connected, s.pending))],
       log := s.log + [Published(i, s.trans[i].req)])
  }

  function PublishConfig(s: State, i: nat, config: Config): State
    requires IsTrans(s, i)
  {
    Log(SetPhase(s, i, Finished(true)).(config := config), Published(i, s.trans[i].req))
  }

  function Discard(s: State, i: nat, next: PoolId): State
    requires IsTrans(s, i)
  {
    SetPhase(BeginEnd(s, next), i, Discarding(next))
  }

  function DoFinishWork(s: State, i: nat): State
    requires IsTrans(s, i)
  {
    match s.trans[i].phase
    case Preparing(next, _) =>
      (match s.trans[i].req
       case Reconnect(uri, _, gen) =>
         if gen != s.gen then Discard(s, i, next) else PublishPool(s, i, uri, next)
       case _ => s)
    case Altering(_, target, _) =>
      (match target
       case Table(table, gen) =>
         if gen != s.gen then SetPhase(s, i, Finished(false))
         else PublishConfig(s, i, s.config.(table := table))
       case Limits(k, n) => PublishConfig(s, i, s.config.(keyLength := k, namespaceLength := n)))
    case _ => s
  }

  function DoWork(s: State, i: nat, work: Work): State
    requires IsTrans(s, i) && (s.trans[i].phase.Preparing? || s.trans[i].phase.Altering?)
  {
    SetPhase(s, i, s.trans[i].phase.(work := work))
  }

  /** The pool a running transition sends its statements to. */
  function WorkPool(p: Phase): PoolId
    requires p.Preparing? || p.Altering?
  {
    if p.Preparing? then p.next else p.conn
  }

  /** The state after a step. */
  ghost function Next(s: State, l: Label): State
    requires Enabled(s, l)
  {
    match l
    case Query => DoQuery(s)
    case CallReconnect(uri) => Enqueue(s, Reconnect(uri, s.disconnecting, s.gen))
    case CallUseTable(table) => Enqueue(s, UseTable(table))
    case CallResize(k, n) => Enqueue(s, Resize(k, n))
    case CallDisconnect => DoDisconnect(s)
    case SetInterval(v) => s.(interval := v, timer := TimerFor(s.disconnected, v))
    case IssueOp(o) => SetOp(Issue(s, s.ops[o].pool), o, Running)
    case RejectOp(o) => SetOp(s, o, Settled)
    case AnswerOp(o) => SetOp(s, o, Settled)
    case ForgetOp(o) => s.(pending := s.pending - {o})
    case IssueBoot => Issue(s, 0).(boot := Booting(Work(s.boot.work.left - 1, true)))
    case AnswerBoot(ok) => s.(boot := if ok then Booting(s.boot.work.(busy := false)) else Booted(false))
    case FinishBoot => s.(boot := Booted(true))
    case Start(i, n, created) => DoStart(s, i, n, created)
    case AfterDisconnect(i, n, created) =>
      if s.discs[s.trans[i].req.after.value].phase.ok then CreatePool(s, i, n, created)
      else SetPhase(s, i, Finished(false))
    case AfterConnection(i, n) =>
      var p := s.trans[i].phase;
      if ConnOk(s, p.conn) then SetPhase(s, i, Altering(p.conn, p.target, Work(n, false)))
      else SetPhase(s, i, Finished(false))
    case IssueWork(i) =>
      var p := s.trans[i].phase;
      DoWork(Issue(s, WorkPool(p)), i, Work(p.work.left - 1, true))
    case AnswerWork(i, ok) =>
      var p := s.trans[i].phase;
      if ok then DoWork(s, i, p.work.(busy := false))
      else if p.Preparing? then Discard(s, i, p.next)
      else SetPhase(s, i, Finished(false))
    case FinishWork(i) => DoFinishWork(s, i)
    case EndDiscarded(i, ok) =>
      Log(SetPhase(s, i, Finished(false)), EndSettled(s.trans[i].phase.next, ok))
    case Drained(i) =>
      (match s.trans[i].phase.prev
       case Some(p) => SetPhase(BeginEnd(s, p), i, Retiring(p))
       case None => SetPhase(s, i, Finished(true)))
    case EndRetired(i, ok) =>
      Log(SetPhase(s, i, Finished(ok)), EndSettled(s.trans[i].phase.prior, ok))
    case EndPool(d) =>
      (match s.pool
       case Some(p) => SetClosing(BeginEnd(s, p), d, Ending(p))
       case None => SetClosing(s, d, Closed(true)))
    case PoolEnded(d, ok) =>
      var t := Log(SetClosing(s, d, Closed(ok)), EndSettled(s.discs[d].phase.pool, ok));
      if ok then t.(pool := None) else t
  }

  /** The constructor: one pool, its table initialization started, the timer armed if configured. */
  function Init(config: Config, interval: int, statements: nat): State {
    State(config, Some(0), 0, false, 0, None, interval, TimerFor(false, interval), [], {}, [], [], 1,
          Booting(Work(statements, false)), {}, [])
  }

  /** Configurations the constructor accepts. */
  predicate ValidInit(config: Config, interval: int, statements: nat) {
    ValidLimits(config.keyLength, config.namespaceLength) && InitStatements(statements)
    && (interval > 0 ==> interval * 1000 <= 2_147_483_647)
  }

  /** The steps of a run, taken one after the other from `s`. */
  ghost predicate Legal(s: State, ls: seq<Label>)
    decreases |ls|, 0
  {
    ls == [] || (Legal(s, ls[..|ls| - 1]) && Enabled(Exec(s, ls[..|ls| - 1]), ls[|ls| - 1]))
  }

  ghost function Exec(s: State, ls: seq<Label>): State
    requires Legal(s, ls)
    decreases |ls|, 1
  {
    if ls == [] then s else Next(Exec(s, ls[..|ls| - 1]), ls[|ls| - 1])
  }

  /** Steps the adapter and the driver take on their own, as opposed to calls of clients. */
  predicate Internal(l: Label) {
    !(l.Query? || l.CallReconnect? || l.CallUseTable? || l.CallResize? || l.CallDisconnect? || l.SetInterval?)
  }
}

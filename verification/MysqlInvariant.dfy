/** The invariant of the lifecycle, one lemma for each step that is not a triviality. */
module MysqlInvariant {
  import opened Wrappers
  import opened MysqlLifecycle

  // ----- The pieces of the invariant -----

  /** Requests and shutdowns carry consistent time stamps. */
  ghost predicate ClockInv(s: State) {
    && s.gen == |s.discs|
    && s.disconnecting == (if s.disconnected then Some(s.gen - 1) else None)
    && (s.disconnected ==> s.gen > 0)
    && (forall d :: 0 <= d < |s.discs| ==> s.discs[d].trans <= |s.trans|)
    && (forall i :: 0 <= i < |s.trans| ==> s.trans[i].stamp <= s.gen)
    && (forall d, i :: 0 <= d < |s.discs| && 0 <= i < |s.trans| ==>
          (i < s.discs[d].trans <==> s.trans[i].stamp <= d))
    && (forall d, e :: 0 <= d < e < |s.discs| ==> s.discs[d].trans <= s.discs[e].trans)
  }

  /** A queued `reconnect` remembers the shutdown in flight when it was requested. */
  ghost predicate RequestInv(s: State) {
    forall i :: 0 <= i < |s.trans| && s.trans[i].req.Reconnect? ==>
      var req, stamp := s.trans[i].req, s.trans[i].stamp;
      && req.gen == stamp
      && (req.after.Some? ==> stamp > 0 && req.after.value == stamp - 1)
      && (req.after.None? && s.disconnected ==> stamp < s.gen)
  }

  /** Transitions leave the queue in order: before an unfinished one nothing runs. */
  ghost predicate QueueInv(s: State) {
    forall i, j :: 0 <= i < j < |s.trans| && !s.trans[i].phase.Finished? ==> s.trans[j].phase == Queued
  }

  ghost predicate TargetFits(req: Request, target: Target) {
    (req.UseTable? && target.Table? && target.table == req.table) || (req.Resize? && target.Limits?)
  }

  ghost predicate PhaseFits(t: Transition) {
    match t.phase
    case Queued | Finished(_) => true
    case AwaitingDisconnect => t.req.Reconnect? && t.req.after.Some?
    case Preparing(_, _) | Discarding(_) | Draining(_, _, _) | Retiring(_) => t.req.Reconnect?
    case AwaitingConnection(_, target) => TargetFits(t.req, target)
    case Altering(_, target, _) => TargetFits(t.req, target)
  }

  ghost predicate FitInv(s: State) {
    forall i :: 0 <= i < |s.trans| ==> PhaseFits(s.trans[i])
  }

  /** While connected, whatever is still queued or running was requested since the last shutdown. */
  ghost predicate CurrentInv(s: State) {
    !s.disconnected ==>
      forall i :: 0 <= i < |s.trans| && !s.trans[i].phase.Finished? ==> s.trans[i].stamp == s.gen
  }

  /** All shutdowns but the last have closed their pool; so has the last one once reconnected. */
  ghost predicate ClosedInv(s: State) {
    forall d :: 0 <= d < |s.discs| && (d < s.gen - 1 || !s.disconnected) ==> s.discs[d].phase == Closed(true)
  }

  function Last(s: State): Disc
    requires |s.discs| > 0
  {
    s.discs[|s.discs| - 1]
  }

  /** What a transition requested during a shutdown may be doing. */
  ghost predicate LatePhase(t: Transition, c: Closing) {
    || t.phase.Queued? || t.phase.Finished?
    || t.phase.AwaitingDisconnect?
    || (c == Closed(true) && (t.phase.Preparing? || t.phase.Discarding?))
  }

  /** The shutdown in flight waits for everything that may still use the pool. */
  ghost predicate ShutdownInv(s: State) {
    s.disconnected && |s.discs| > 0 ==>
      var last := Last(s);
      && last.conn == s.connected
      && (forall o :: 0 <= o < |s.ops| && s.ops[o].phase != Settled ==> o in last.ops)
      && (forall i :: last.trans <= i < |s.trans| ==> LatePhase(s.trans[i], last.phase))
      && (last.phase != Collecting ==>
            && ConnSettled(s, s.connected)
            && (forall o :: 0 <= o < |s.ops| ==> s.ops[o].phase == Settled)
            && (forall i :: 0 <= i < last.trans && i < |s.trans| ==> s.trans[i].phase.Finished?))
  }

  /** The published pool, and when it is being or has been ended. */
  ghost predicate PublishedInv(s: State) {
    && s.connected < s.pools
    && (forall p :: p in s.ended ==> p < s.pools)
    && (forall p :: s.pool == Some(p) ==> p == s.connected)
    && (!s.disconnected ==> s.pool.Some? && s.connected !in s.ended)
    && (s.disconnected && |s.discs| > 0 ==>
          match Last(s).phase
          case Collecting => s.pool.Some? && s.connected !in s.ended
          case Ending(p) => s.pool == Some(p) && p in s.ended
          case Closed(ok) => if ok then s.pool == None && s.connected in s.ended
                             else s.pool.Some? && s.connected in s.ended)
  }

  /** The pool a transition works on or owns. */
  ghost predicate OwnedPhase(s: State, phase: Phase) {
    match phase
    case Preparing(next, _) => next < s.pools && next != s.connected && next !in s.ended
    case Discarding(next) => next < s.pools && next != s.connected && next in s.ended
    case Draining(prev, prevConnected, _) =>
      prevConnected < s.pools && prevConnected != s.connected
      && (match prev
          case Some(p) => p == prevConnected && p !in s.ended
          case None => prevConnected in s.ended && ConnSettled(s, prevConnected))
    case Retiring(p) => p < s.pools && p != s.connected && p in s.ended
    case AwaitingConnection(conn, _) => conn == s.connected
    case Altering(conn, _, _) => conn == s.connected
    case _ => true
  }

  ghost predicate OwnedInv(s: State) {
    forall i :: 0 <= i < |s.trans| ==> OwnedPhase(s, s.trans[i].phase)
  }

  ghost predicate Drains(s: State, i: nat, o: nat) {
    IsTrans(s, i) && IsOp(s, o) && s.trans[i].phase.Draining?
    && s.trans[i].phase.prev == Some(s.ops[o].pool) && o in s.trans[i].phase.ops
  }

  /** An unsettled query is pending, and whoever may end its pool waits for it. */
  ghost predicate OpsInv(s: State) {
    && (forall o :: o in s.pending ==> o < |s.ops|)
    && (forall o :: 0 <= o < |s.ops| ==> s.ops[o].pool < s.pools)
    && (forall o :: 0 <= o < |s.ops| && s.ops[o].phase != Settled ==>
          && o in s.pending
          && (s.ops[o].pool == s.connected || exists i :: Drains(s, i, o)))
  }

  ghost predicate DrainsBoot(s: State, i: nat) {
    IsTrans(s, i) && s.trans[i].phase.Draining? && s.trans[i].phase.prev == Some(0)
  }

  /** The constructor's initialization runs on pool 0, and whoever may end it waits. */
  ghost predicate BootInv(s: State) {
    s.boot.Booting? ==> s.connected == 0 || exists i :: DrainsBoot(s, i)
  }

  /** Transition `i` is responsible for ending pool `p`. */
  ghost predicate Holds(s: State, i: nat, p: PoolId) {
    IsTrans(s, i)
    && match s.trans[i].phase
       case Preparing(next, _) => next == p
       case Draining(prev, _, _) => prev == Some(p)
       case _ => false
  }

  /** No pool is lost: one that was created and not ended is published or held by a transition. */
  ghost predicate HeldInv(s: State) {
    forall p :: 0 <= p < s.pools && p !in s.ended ==> s.pool == Some(p) || exists i :: Holds(s, i, p)
  }

  ghost predicate TimerInv(s: State) { s.timer == TimerFor(s.disconnected, s.interval) }

  /** A target was computed from the request and the configuration that is still in force. */
  ghost predicate TargetInv(t: Transition, target: Target, config: Config) {
    match target
    case Table(_, gen) => gen == t.stamp
    case Limits(k, n) =>
      ValidLimits(k, n)
      && (t.req.Resize? ==> k == t.req.keyLength.GetOr(config.keyLength))
      && (t.req.Resize? ==> n == t.req.namespaceLength.GetOr(config.namespaceLength))
  }

  ghost predicate LimitsPhase(t: Transition, config: Config) {
    match t.phase
    case AwaitingConnection(_, target) => TargetInv(t, target, config)
    case Altering(_, target, _) => TargetInv(t, target, config)
    case _ => true
  }

  /** Limits stay valid, and a running `useTable` captured the generation of its request. */
  ghost predicate LimitsInv(s: State) {
    ValidLimits(s.config.keyLength, s.config.namespaceLength)
    && forall i :: 0 <= i < |s.trans| ==> LimitsPhase(s.trans[i], s.config)
  }

  ghost predicate OrderInv(s: State) {
    ClockInv(s) && RequestInv(s) && QueueInv(s) && FitInv(s) && CurrentInv(s) && ClosedInv(s)
  }

  ghost predicate UseInv(s: State) {
    ShutdownInv(s) && PublishedInv(s) && OwnedInv(s) && OpsInv(s) && BootInv(s)
  }

  ghost predicate Inv(s: State) {
    OrderInv(s) && UseInv(s) && HeldInv(s) && TimerInv(s) && LimitsInv(s)
  }

  // ----- The invariant holds initially -----

  lemma InitInv(config: Config, interval: int, statements: nat)
    requires ValidInit(config, interval, statements)
    ensures Inv(Init(config, interval, statements))
  {}

  // ----- Framing: the witnesses of the existentials move with the state -----

  lemma SameOwners(s: State, t: State)
    requires |s.trans| <= |t.trans| && |s.ops| <= |t.ops|
    requires forall i :: 0 <= i < |s.trans| && (s.trans[i].phase.Draining? || s.trans[i].phase.Preparing?) ==>
               t.trans[i].phase == s.trans[i].phase
    requires forall o :: 0 <= o < |s.ops| ==> t.ops[o].pool == s.ops[o].pool
    ensures forall i, o :: Drains(s, i, o) ==> Drains(t, i, o)
    ensures forall i :: DrainsBoot(s, i) ==> DrainsBoot(t, i)
    ensures forall i, p :: Holds(s, i, p) ==> Holds(t, i, p)
  {}

  /** The transition that left the queue last: all before it are finished, all after it wait. */
  lemma Alone(s: State, i: nat)
    requires QueueInv(s) && IsTrans(s, i)
    requires s.trans[i].phase != Queued || TransFinished(s, i)
    ensures forall j :: 0 <= j < i ==> s.trans[j].phase.Finished?
    ensures !s.trans[i].phase.Finished? ==> forall j :: i < j < |s.trans| ==> s.trans[j].phase == Queued
  {
    forall j | 0 <= j < i ensures s.trans[j].phase.Finished? {}
  }

  // ----- One transition advances -----

  /** Requested during the shutdown in flight. */
  ghost predicate Late(s: State, i: nat) { s.disconnected && |s.discs| > 0 && Last(s).trans <= i }

  /** Transition `i` takes a step that changes no published field. */
  ghost predicate Advance(s: State, t: State, i: nat) {
    && IsTrans(s, i) && IsTrans(t, i)
    && t == s.(trans := s.trans[i := s.trans[i].(phase := t.trans[i].phase)],
               ended := t.ended, pools := t.pools, log := t.log)
    && !s.trans[i].phase.Finished? && (s.trans[i].phase == Queued ==> TransFinished(s, i))
    && !t.trans[i].phase.Queued? && PhaseFits(t.trans[i])
    && OwnedPhase(t, t.trans[i].phase) && LimitsPhase(t.trans[i], s.config)
    && s.ended <= t.ended && s.pools <= t.pools
    && (forall p :: p in t.ended && p !in s.ended ==> Holds(s, i, p))
    && (forall p :: Holds(s, i, p) ==> p in t.ended || Holds(t, i, p))
    && (forall p :: s.pools <= p < t.pools ==> Holds(t, i, p))
    && (Late(s, i) ==> LatePhase(t.trans[i], Last(s).phase))
    && (s.trans[i].phase.Draining? ==>
          OpsSettled(s, s.trans[i].phase.ops) && ConnSettled(s, s.trans[i].phase.prevConnected))
    && (t.trans[i].phase.Draining? ==> s.trans[i].phase == t.trans[i].phase)
  }

  lemma AdvanceOrder(s: State, t: State, i: nat)
    requires Inv(s) && Advance(s, t, i)
    ensures ClockInv(t) && RequestInv(t) && FitInv(t) && CurrentInv(t) && ClosedInv(t)
  {}

  lemma AdvanceQueue(s: State, t: State, i: nat)
    requires Inv(s) && Advance(s, t, i)
    ensures QueueInv(t) && TimerInv(t) && LimitsInv(t)
  {
    Alone(s, i);
  }

  lemma AdvanceUse(s: State, t: State, i: nat)
    requires Inv(s) && Advance(s, t, i)
    ensures ShutdownInv(t) && PublishedInv(t) && OwnedInv(t)
  {
    Alone(s, i);
  }

  lemma AdvanceOwners(s: State, t: State, i: nat)
    requires Inv(s) && Advance(s, t, i)
    ensures OpsInv(t) && BootInv(t) && HeldInv(t)
  {
    Alone(s, i);
    assert forall j: nat, o: nat :: Drains(s, j, o) ==> j == i && (Drains(t, i, o) || s.ops[o].phase == Settled);
    assert forall j: nat :: DrainsBoot(s, j) ==> j == i && (DrainsBoot(t, i) || s.boot.Booted?);
    assert forall j: nat, p: nat :: Holds(s, j, p) ==> j == i;
    forall p | 0 <= p < t.pools && p !in t.ended && t.pool != Some(p) ensures exists j :: Holds(t, j, p) {
      if p >= s.pools || Holds(s, i, p) { assert Holds(t, i, p); }
    }
  }

  lemma AdvanceInv(s: State, t: State, i: nat)
    requires Inv(s) && Advance(s, t, i)
    ensures Inv(t)
  {
    AdvanceOrder(s, t, i);
    AdvanceQueue(s, t, i);
    AdvanceUse(s, t, i);
    AdvanceOwners(s, t, i);
  }

  // ----- The steps of the transitions -----

  /** What the invariant says about one transition and the fields it looks at. */
  lemma TransFacts(s: State, i: nat)
    requires Inv(s) && IsTrans(s, i)
    ensures PhaseFits(s.trans[i]) && OwnedPhase(s, s.trans[i].phase) && LimitsPhase(s.trans[i], s.config)
    ensures Late(s, i) ==> LatePhase(s.trans[i], Last(s).phase)
    ensures Late(s, i) && s.trans[i].req.Reconnect? ==> s.trans[i].req.after == Some(|s.discs| - 1)
    ensures !s.disconnected && !s.trans[i].phase.Finished? ==> s.trans[i].stamp == s.gen
    ensures s.trans[i].req.Reconnect? ==> s.trans[i].req.gen == s.trans[i].stamp
    ensures s.connected < s.pools && (forall p :: p in s.ended ==> p < s.pools)
    ensures ValidLimits(s.config.keyLength, s.config.namespaceLength)
    ensures s.disconnected ==> |s.discs| > 0
  {
    hide OpsInv, BootInv, HeldInv, TimerInv;
  }

  /** A transition goes to a phase in which it owns no pool. */
  lemma PhaseInv(s: State, i: nat, phase: Phase)
    requires Inv(s) && IsTrans(s, i) && !s.trans[i].phase.Finished? && (s.trans[i].phase == Queued ==> TransFinished(s, i))
    requires !s.trans[i].phase.Preparing? && !s.trans[i].phase.Draining?
    requires phase.AwaitingDisconnect? || phase.AwaitingConnection? || phase.Finished? || phase.Altering?
    requires PhaseFits(s.trans[i].(phase := phase)) && OwnedPhase(s, phase)
    requires LimitsPhase(s.trans[i].(phase := phase), s.config)
    requires Late(s, i) ==> LatePhase(s.trans[i].(phase := phase), Last(s).phase)
    ensures Inv(SetPhase(s, i, phase))
  {
    hide Inv;
    AdvanceInv(s, SetPhase(s, i, phase), i);
  }

  lemma CreatePoolInv(s: State, i: nat, n: nat, created: bool)
    requires Inv(s) && IsTrans(s, i) && s.trans[i].req.Reconnect? && (s.trans[i].phase == Queued ==> TransFinished(s, i))
    requires s.trans[i].phase.Queued? || s.trans[i].phase.AwaitingDisconnect?
    requires Late(s, i) ==> Last(s).phase == Closed(true)
    ensures Inv(CreatePool(s, i, n, created))
  {
    hide Inv;
    TransFacts(s, i);
    if created { AdvanceInv(s, CreatePool(s, i, n, created), i); } else { PhaseInv(s, i, Finished(false)); }
  }

  lemma StartInv(s: State, i: nat, n: nat, created: bool)
    requires Inv(s) && Enabled(s, Start(i, n, created))
    ensures Inv(DoStart(s, i, n, created))
  {
    hide Inv, Next;
    TransFacts(s, i);
    match s.trans[i].req
    case Reconnect(_, after, _) =>
      if after.Some? { PhaseInv(s, i, AwaitingDisconnect); } else { CreatePoolInv(s, i, n, created); }
    case UseTable(table) => StartTableInv(s, i, table);
    case Resize(kl, nl) => StartResizeInv(s, i, kl, nl);
  }

  lemma StartTableInv(s: State, i: nat, table: string)
    requires Inv(s) && IsTrans(s, i) && s.trans[i].phase == Queued && TransFinished(s, i) && s.trans[i].req == UseTable(table)
    ensures Inv(DoStart(s, i, 0, false))
  {
    hide Inv, Next;
    TransFacts(s, i);
    if s.disconnected || table == s.config.table {
      PhaseInv(s, i, Finished(!s.disconnected));
    } else {
      PhaseInv(s, i, AwaitingConnection(s.connected, Table(table, s.gen)));
    }
  }

  lemma StartResizeInv(s: State, i: nat, kl: Option<int>, nl: Option<int>)
    requires Inv(s) && IsTrans(s, i) && s.trans[i].phase == Queued && TransFinished(s, i) && s.trans[i].req == Resize(kl, nl)
    ensures Inv(DoStart(s, i, 0, false))
  {
    hide Inv, Next;
    TransFacts(s, i);
    var k, n := kl.GetOr(s.config.keyLength), nl.GetOr(s.config.namespaceLength);
    if s.disconnected || !ValidLimits(k, n) {
      PhaseInv(s, i, Finished(false));
    } else if k == s.config.keyLength && n == s.config.namespaceLength {
      PhaseInv(s, i, Finished(true));
    } else {
      PhaseInv(s, i, AwaitingConnection(s.connected, Limits(k, n)));
    }
  }

  lemma StartStepInv(s: State, i: nat, n: nat, created: bool)
    requires Inv(s) && Enabled(s, Start(i, n, created))
    ensures Inv(Next(s, Start(i, n, created)))
  {
    hide Inv;
    StartInv(s, i, n, created);
  }

  lemma AfterDisconnectInv(s: State, i: nat, n: nat, created: bool)
    requires Inv(s) && Enabled(s, AfterDisconnect(i, n, created))
    ensures Inv(Next(s, AfterDisconnect(i, n, created)))
  {
    hide Inv;
    TransFacts(s, i);
    AdvanceInv(s, Next(s, AfterDisconnect(i, n, created)), i);
  }

  lemma AfterConnectionInv(s: State, i: nat, n: nat)
    requires Inv(s) && Enabled(s, AfterConnection(i, n))
    ensures Inv(Next(s, AfterConnection(i, n)))
  {
    hide Inv;
    TransFacts(s, i);
    AdvanceInv(s, Next(s, AfterConnection(i, n)), i);
  }

  lemma IssueWorkInv(s: State, i: nat)
    requires Inv(s) && Enabled(s, IssueWork(i))
    ensures Inv(Next(s, IssueWork(i)))
  {
    hide Inv;
    TransFacts(s, i);
    AdvanceInv(s, Next(s, IssueWork(i)), i);
  }

  lemma AnswerWorkInv(s: State, i: nat, ok: bool)
    requires Inv(s) && Enabled(s, AnswerWork(i, ok))
    ensures Inv(Next(s, AnswerWork(i, ok)))
  {
    hide Inv;
    TransFacts(s, i);
    AdvanceInv(s, Next(s, AnswerWork(i, ok)), i);
  }

  lemma EndDiscardedInv(s: State, i: nat, ok: bool)
    requires Inv(s) && Enabled(s, EndDiscarded(i, ok))
    ensures Inv(Next(s, EndDiscarded(i, ok)))
  {
    hide Inv;
    TransFacts(s, i);
    AdvanceInv(s, Next(s, EndDiscarded(i, ok)), i);
  }

  lemma DrainedInv(s: State, i: nat)
    requires Inv(s) && Enabled(s, Drained(i))
    ensures Inv(Next(s, Drained(i)))
  {
    hide Inv;
    TransFacts(s, i);
    AdvanceInv(s, Next(s, Drained(i)), i);
  }

  lemma EndRetiredInv(s: State, i: nat, ok: bool)
    requires Inv(s) && Enabled(s, EndRetired(i, ok))
    ensures Inv(Next(s, EndRetired(i, ok)))
  {
    hide Inv;
    TransFacts(s, i);
    AdvanceInv(s, Next(s, EndRetired(i, ok)), i);
  }

  // ----- Queries, the constructor's initialization and the timer -----

  /** Queries and the constructor's initialization only move towards being settled. */
  ghost predicate Settles(s: State, t: State) {
    && t == s.(ops := t.ops, pending := t.pending, boot := t.boot, interval := t.interval, timer := t.timer,
               log := t.log)
    && |t.ops| == |s.ops|
    && (forall o :: 0 <= o < |s.ops| ==> t.ops[o].pool == s.ops[o].pool)
    && (forall o :: 0 <= o < |s.ops| && s.ops[o].phase == Settled ==> t.ops[o].phase == Settled)
    && t.pending <= s.pending
    && (forall o :: 0 <= o < |t.ops| && t.ops[o].phase != Settled && o in s.pending ==> o in t.pending)
    && (s.boot.Booted? ==> t.boot == s.boot)
    && TimerInv(t)
  }

  lemma SettlesOrder(s: State, t: State)
    requires OrderInv(s) && LimitsInv(s) && Settles(s, t)
    ensures OrderInv(t) && LimitsInv(t)
  {}

  lemma SettlesUse(s: State, t: State)
    requires UseInv(s) && HeldInv(s) && Settles(s, t)
    ensures UseInv(t) && HeldInv(t)
  {
    SameOwners(s, t);
  }

  lemma SettlesInv(s: State, t: State)
    requires Inv(s) && Settles(s, t)
    ensures Inv(t)
  {
    SettlesOrder(s, t);
    SettlesUse(s, t);
  }

  lemma SettleStepInv(s: State, l: Label)
    requires Inv(s) && Enabled(s, l)
    requires l.IssueOp? || l.RejectOp? || l.AnswerOp? || l.ForgetOp? || l.SetInterval?
          || l.IssueBoot? || l.AnswerBoot? || l.FinishBoot?
    ensures Inv(Next(s, l))
  {
    SettlesInv(s, Next(s, l));
  }

  lemma QueryInv(s: State)
    requires Inv(s)
    ensures Inv(DoQuery(s))
  {
    SameOwners(s, DoQuery(s));
  }

  lemma EnqueueOrder(s: State, req: Request)
    requires Inv(s)
    requires req.Reconnect? ==> req == Reconnect(req.uri, s.disconnecting, s.gen)
    ensures OrderInv(Enqueue(s, req)) && TimerInv(Enqueue(s, req)) && LimitsInv(Enqueue(s, req))
  {
    hide OwnedInv, OpsInv, BootInv, HeldInv, ShutdownInv, PublishedInv;
  }

  lemma EnqueueUse(s: State, req: Request)
    requires Inv(s)
    requires req.Reconnect? ==> req == Reconnect(req.uri, s.disconnecting, s.gen)
    ensures ShutdownInv(Enqueue(s, req)) && PublishedInv(Enqueue(s, req)) && OwnedInv(Enqueue(s, req))
  {
    hide BootInv, HeldInv, LimitsInv;
  }

  lemma EnqueueOwners(s: State, req: Request)
    requires Inv(s)
    requires req.Reconnect? ==> req == Reconnect(req.uri, s.disconnecting, s.gen)
    ensures OpsInv(Enqueue(s, req)) && BootInv(Enqueue(s, req)) && HeldInv(Enqueue(s, req))
  {
    hide LimitsInv, RequestInv, CurrentInv, ShutdownInv;
    SameOwners(s, Enqueue(s, req));
  }

  lemma EnqueueInv(s: State, req: Request)
    requires Inv(s)
    requires req.Reconnect? ==> req == Reconnect(req.uri, s.disconnecting, s.gen)
    ensures Inv(Enqueue(s, req))
  {
    hide ClockInv, RequestInv, QueueInv, FitInv, CurrentInv, ClosedInv;
    hide ShutdownInv, PublishedInv, OwnedInv, OpsInv, BootInv, HeldInv, TimerInv, LimitsInv;
    EnqueueOrder(s, req);
    EnqueueUse(s, req);
    EnqueueOwners(s, req);
  }

  // ----- Shutdown -----

  lemma DisconnectOrder(s: State)
    requires Inv(s)
    ensures OrderInv(DoDisconnect(s)) && TimerInv(DoDisconnect(s)) && LimitsInv(DoDisconnect(s))
  {
    hide OwnedInv, OpsInv, BootInv, HeldInv, ShutdownInv, PublishedInv;
  }

  lemma DisconnectUse(s: State)
    requires Inv(s)
    ensures ShutdownInv(DoDisconnect(s)) && PublishedInv(DoDisconnect(s)) && OwnedInv(DoDisconnect(s))
  {
    hide BootInv, HeldInv, LimitsInv;
  }

  lemma DisconnectOwners(s: State)
    requires Inv(s)
    ensures OpsInv(DoDisconnect(s)) && BootInv(DoDisconnect(s)) && HeldInv(DoDisconnect(s))
  {
    hide LimitsInv, RequestInv, CurrentInv, ShutdownInv;
    SameOwners(s, DoDisconnect(s));
  }

  lemma DisconnectInv(s: State)
    requires Inv(s)
    ensures Inv(DoDisconnect(s))
  {
    hide ClockInv, RequestInv, QueueInv, FitInv, CurrentInv, ClosedInv;
    hide ShutdownInv, PublishedInv, OwnedInv, OpsInv, BootInv, HeldInv, TimerInv, LimitsInv;
    DisconnectOrder(s);
    DisconnectUse(s);
    DisconnectOwners(s);
  }

  lemma ShutdownIsLast(s: State, d: nat)
    requires Inv(s) && IsDisc(s, d) && !s.discs[d].phase.Closed?
    ensures s.disconnected && d == |s.discs| - 1
  {}

  lemma EndPoolOrder(s: State, d: nat)
    requires Inv(s) && Enabled(s, EndPool(d))
    ensures OrderInv(Next(s, EndPool(d))) && TimerInv(Next(s, EndPool(d))) && LimitsInv(Next(s, EndPool(d)))
  {
    hide OwnedInv, OpsInv, BootInv, HeldInv;
    ShutdownIsLast(s, d);
  }

  lemma EndPoolUse(s: State, d: nat)
    requires Inv(s) && Enabled(s, EndPool(d))
    ensures ShutdownInv(Next(s, EndPool(d))) && PublishedInv(Next(s, EndPool(d))) && OwnedInv(Next(s, EndPool(d)))
  {
    hide OpsInv, BootInv, HeldInv, LimitsInv, RequestInv;
    ShutdownIsLast(s, d);
    if s.discs[d].trans > 0 { Alone(s, s.discs[d].trans - 1); }
  }

  lemma EndPoolOwners(s: State, d: nat)
    requires Inv(s) && Enabled(s, EndPool(d))
    ensures OpsInv(Next(s, EndPool(d))) && BootInv(Next(s, EndPool(d))) && HeldInv(Next(s, EndPool(d)))
  {
    hide LimitsInv, RequestInv, CurrentInv;
    ShutdownIsLast(s, d);
    SameOwners(s, Next(s, EndPool(d)));
  }

  lemma EndPoolInv(s: State, d: nat)
    requires Inv(s) && Enabled(s, EndPool(d))
    ensures Inv(Next(s, EndPool(d)))
  {
    hide ClockInv, RequestInv, QueueInv, FitInv, CurrentInv, ClosedInv, Next, Enabled;
    hide ShutdownInv, PublishedInv, OwnedInv, OpsInv, BootInv, HeldInv, TimerInv, LimitsInv;
    EndPoolOrder(s, d);
    EndPoolUse(s, d);
    EndPoolOwners(s, d);
  }

  lemma PoolEndedOrder(s: State, d: nat, ok: bool)
    requires Inv(s) && Enabled(s, PoolEnded(d, ok))
    ensures OrderInv(Next(s, PoolEnded(d, ok))) && TimerInv(Next(s, PoolEnded(d, ok))) && LimitsInv(Next(s, PoolEnded(d, ok)))
  {
    hide OwnedInv, OpsInv, BootInv, HeldInv;
    ShutdownIsLast(s, d);
  }

  lemma PoolEndedUse(s: State, d: nat, ok: bool)
    requires Inv(s) && Enabled(s, PoolEnded(d, ok))
    ensures ShutdownInv(Next(s, PoolEnded(d, ok))) && PublishedInv(Next(s, PoolEnded(d, ok))) && OwnedInv(Next(s, PoolEnded(d, ok)))
  {
    hide OpsInv, BootInv, HeldInv, LimitsInv, RequestInv;
    ShutdownIsLast(s, d);
  }

  lemma PoolEndedOwners(s: State, d: nat, ok: bool)
    requires Inv(s) && Enabled(s, PoolEnded(d, ok))
    ensures OpsInv(Next(s, PoolEnded(d, ok))) && BootInv(Next(s, PoolEnded(d, ok))) && HeldInv(Next(s, PoolEnded(d, ok)))
  {
    hide LimitsInv, RequestInv, CurrentInv;
    ShutdownIsLast(s, d);
    SameOwners(s, Next(s, PoolEnded(d, ok)));
  }

  lemma PoolEndedInv(s: State, d: nat, ok: bool)
    requires Inv(s) && Enabled(s, PoolEnded(d, ok))
    ensures Inv(Next(s, PoolEnded(d, ok)))
  {
    hide ClockInv, RequestInv, QueueInv, FitInv, CurrentInv, ClosedInv, Next, Enabled;
    hide ShutdownInv, PublishedInv, OwnedInv, OpsInv, BootInv, HeldInv, TimerInv, LimitsInv;
    PoolEndedOrder(s, d, ok);
    PoolEndedUse(s, d, ok);
    PoolEndedOwners(s, d, ok);
  }

  // ----- Publishing -----

  lemma PublishPoolOrder(s: State, i: nat)
    requires Inv(s) && Enabled(s, FinishWork(i)) && s.trans[i].phase.Preparing?
    requires s.trans[i].req.gen == s.gen
    ensures OrderInv(Next(s, FinishWork(i))) && TimerInv(Next(s, FinishWork(i))) && LimitsInv(Next(s, FinishWork(i)))
  {
    hide PublishedInv, OwnedInv, OpsInv, BootInv, HeldInv;
    Alone(s, i);
  }

  lemma PublishPoolUse(s: State, i: nat)
    requires Inv(s) && Enabled(s, FinishWork(i)) && s.trans[i].phase.Preparing?
    requires s.trans[i].req.gen == s.gen
    ensures var t := Next(s, FinishWork(i)); ShutdownInv(t) && PublishedInv(t) && OwnedInv(t)
  {
    hide OpsInv, BootInv, HeldInv, LimitsInv;
    Alone(s, i);
  }

  lemma PublishPoolOwners(s: State, i: nat)
    requires Inv(s) && Enabled(s, FinishWork(i)) && s.trans[i].phase.Preparing?
    requires s.trans[i].req.gen == s.gen
    ensures var t := Next(s, FinishWork(i)); OpsInv(t) && BootInv(t) && HeldInv(t)
  {
    hide LimitsInv, CurrentInv;
    Alone(s, i);
    var t := Next(s, FinishWork(i));
    assert forall j: nat, p: nat :: Holds(s, j, p) ==> j == i;
    assert forall j: nat, o: nat :: !Drains(s, j, o);
    assert forall j: nat :: !DrainsBoot(s, j);
    assert forall o: nat :: o < |s.ops| && s.ops[o].phase != Settled ==> Drains(t, i, o);
    assert s.boot.Booting? ==> DrainsBoot(t, i);
    assert s.pool.Some? ==> Holds(t, i, s.connected);
  }

  lemma PublishPoolInv(s: State, i: nat)
    requires Inv(s) && Enabled(s, FinishWork(i)) && s.trans[i].phase.Preparing?
    requires s.trans[i].req.gen == s.gen
    ensures Inv(Next(s, FinishWork(i)))
  {
    hide ClockInv, RequestInv, QueueInv, FitInv, CurrentInv, ClosedInv, Next;
    hide ShutdownInv, PublishedInv, OwnedInv, OpsInv, BootInv, HeldInv, TimerInv, LimitsInv;
    PublishPoolOrder(s, i);
    PublishPoolUse(s, i);
    PublishPoolOwners(s, i);
  }

  lemma ConfigOrder(s: State, config: Config)
    requires Inv(s) && ValidLimits(config.keyLength, config.namespaceLength)
    requires forall j :: 0 <= j < |s.trans| ==>
               !s.trans[j].phase.AwaitingConnection? && !s.trans[j].phase.Altering?
    ensures OrderInv(s.(config := config)) && TimerInv(s.(config := config)) && LimitsInv(s.(config := config))
  {
    hide OwnedInv, OpsInv, BootInv, HeldInv, ShutdownInv, PublishedInv;
  }

  lemma ConfigUse(s: State, config: Config)
    requires Inv(s) && ValidLimits(config.keyLength, config.namespaceLength)
    requires forall j :: 0 <= j < |s.trans| ==>
               !s.trans[j].phase.AwaitingConnection? && !s.trans[j].phase.Altering?
    ensures ShutdownInv(s.(config := config)) && PublishedInv(s.(config := config)) && OwnedInv(s.(config := config))
  {
    hide BootInv, HeldInv, LimitsInv;
  }

  lemma ConfigOwners(s: State, config: Config)
    requires Inv(s) && ValidLimits(config.keyLength, config.namespaceLength)
    requires forall j :: 0 <= j < |s.trans| ==>
               !s.trans[j].phase.AwaitingConnection? && !s.trans[j].phase.Altering?
    ensures OpsInv(s.(config := config)) && BootInv(s.(config := config)) && HeldInv(s.(config := config))
  {
    hide LimitsInv, RequestInv, CurrentInv, ShutdownInv;
    SameOwners(s, s.(config := config));
  }

  lemma ConfigInv(s: State, config: Config)
    requires Inv(s) && ValidLimits(config.keyLength, config.namespaceLength)
    requires forall j :: 0 <= j < |s.trans| ==>
               !s.trans[j].phase.AwaitingConnection? && !s.trans[j].phase.Altering?
    ensures Inv(s.(config := config))
  {
    hide ClockInv, RequestInv, QueueInv, FitInv, CurrentInv, ClosedInv;
    hide ShutdownInv, PublishedInv, OwnedInv, OpsInv, BootInv, HeldInv, TimerInv, LimitsInv;
    ConfigOrder(s, config);
    ConfigUse(s, config);
    ConfigOwners(s, config);
  }

  lemma AlteredInv(s: State, i: nat)
    requires Inv(s) && IsTrans(s, i) && s.trans[i].phase.Altering?
    ensures var u := Log(SetPhase(s, i, Finished(true)), Published(i, s.trans[i].req)); Inv(u)
    ensures forall j :: 0 <= j < |s.trans| && j != i ==> !s.trans[j].phase.AwaitingConnection? && !s.trans[j].phase.Altering?
    ensures LimitsPhase(s.trans[i], s.config)
  {
    TransFacts(s, i);
    Alone(s, i);
    hide Inv;
    AdvanceInv(s, Log(SetPhase(s, i, Finished(true)), Published(i, s.trans[i].req)), i);
  }

  lemma PublishConfigInv(s: State, i: nat)
    requires Inv(s) && Enabled(s, FinishWork(i)) && s.trans[i].phase.Altering?
    ensures Inv(Next(s, FinishWork(i)))
  {
    hide Inv;
    TransFacts(s, i);
    var t := Next(s, FinishWork(i));
    if t.log == s.log {
      AdvanceInv(s, t, i);
    } else {
      AlteredInv(s, i);
      ConfigInv(t.(config := s.config), t.config);
      assert t == t.(config := s.config).(config := t.config);
    }
  }

  lemma FinishWorkInv(s: State, i: nat)
    requires Inv(s) && Enabled(s, FinishWork(i))
    ensures Inv(Next(s, FinishWork(i)))
  {
    if s.trans[i].phase.Altering? {
      PublishConfigInv(s, i);
    } else if s.trans[i].req.gen == s.gen {
      PublishPoolInv(s, i);
    } else {
      AdvanceInv(s, Next(s, FinishWork(i)), i);
    }
  }

  lemma CallInv(s: State, l: Label)
    requires Inv(s) && (l.Query? || l.CallReconnect? || l.CallUseTable? || l.CallResize? || l.CallDisconnect?)
    ensures Inv(Next(s, l))
  {
    hide Inv;
    match l
    case Query => QueryInv(s);
    case CallReconnect(uri) => EnqueueInv(s, Reconnect(uri, s.disconnecting, s.gen));
    case CallUseTable(table) => EnqueueInv(s, UseTable(table));
    case CallResize(k, n) => EnqueueInv(s, Resize(k, n));
    case CallDisconnect => DisconnectInv(s);
  }

  // ----- The invariant holds in every run -----

  lemma StepInv(s: State, l: Label)
    requires Inv(s) && Enabled(s, l)
    ensures Inv(Next(s, l))
  {
    hide Inv, Next, Enabled;
    match l
    case Query | CallReconnect(_) | CallUseTable(_) | CallResize(_, _) | CallDisconnect => CallInv(s, l);
    case Start(i, n, c) => StartStepInv(s, i, n, c);
    case AfterDisconnect(i, n, c) => AfterDisconnectInv(s, i, n, c);
    case AfterConnection(i, n) => AfterConnectionInv(s, i, n);
    case IssueWork(i) => IssueWorkInv(s, i);
    case AnswerWork(i, ok) => AnswerWorkInv(s, i, ok);
    case FinishWork(i) => FinishWorkInv(s, i);
    case EndDiscarded(i, ok) => EndDiscardedInv(s, i, ok);
    case Drained(i) => DrainedInv(s, i);
    case EndRetired(i, ok) => EndRetiredInv(s, i, ok);
    case EndPool(d) => EndPoolInv(s, d);
    case PoolEnded(d, ok) => PoolEndedInv(s, d, ok);
    case _ => SettleStepInv(s, l);
  }

  lemma {:induction false} RunInv(s: State, ls: seq<Label>)
    requires Inv(s) && Legal(s, ls)
    ensures Inv(Exec(s, ls))
    decreases |ls|
  {
    if ls != [] {
      RunInv(s, ls[..|ls| - 1]);
      StepInv(Exec(s, ls[..|ls| - 1]), ls[|ls| - 1]);
    }
  }
}

/** What every run of the lifecycle keeps, stated on the log of the run. */
module MysqlSafety {
  import opened Wrappers
  import opened MysqlLifecycle
  import opened MysqlInvariant

  // ----- Statements about logs -----

  /** After `end()` was called on a pool nothing is sent to it and it is not ended again. */
  ghost predicate SafeLog(log: seq<Event>) {
    forall a, b :: 0 <= a < b < |log| && log[a].EndStarted? ==>
      log[b] != Issued(log[a].pool) && log[b] != EndStarted(log[a].pool)
  }

  /** Configurations are published in the order of the requests, each request at most once. */
  ghost predicate InOrder(log: seq<Event>) {
    forall a, b :: 0 <= a < b < |log| && log[a].Published? && log[b].Published? ==> log[a].i < log[b].i
  }

  /** A `reconnect` or `useTable` requested before a shutdown does not publish after it. */
  ghost predicate Cancelled(log: seq<Event>) {
    forall a, b, c :: 0 <= a < b < c < |log| ==>
      log[a].Requested? && log[b].Disconnecting? && log[c].Published? && log[c].i == log[a].i ==> log[c].req.Resize?
  }

  /** The configuration after one publication. */
  function Apply(config: Config, req: Request): Config {
    match req
    case Reconnect(uri, _, _) => config.(uri := uri)
    case UseTable(table) => config.(table := table)
    case Resize(k, n) =>
      config.(keyLength := k.GetOr(config.keyLength), namespaceLength := n.GetOr(config.namespaceLength))
  }

  /** The initial configuration changed by the published requests only, one after the other. */
  function Replay(config: Config, log: seq<Event>): Config
    decreases |log|
  {
    if log == [] then config
    else
      var before := Replay(config, log[..|log| - 1]);
      if log[|log| - 1].Published? then Apply(before, log[|log| - 1].req) else before
  }

  // ----- One step -----

  /** A transition whose publication is behind it. */
  ghost predicate Past(s: State, i: nat) {
    IsTrans(s, i) && (s.trans[i].phase.Finished? || s.trans[i].phase.Draining? || s.trans[i].phase.Retiring?)
  }

  /** What a step may add to the log, seen from the state it starts in. */
  ghost predicate Allowed(s: State, t: State, e: Event) {
    match e
    case Requested(i) => i == |s.trans| && |t.trans| == i + 1
    case Disconnecting(d) => d == |s.discs| && |t.discs| == d + 1 && !s.disconnected
    case Published(i, req) =>
      && IsTrans(s, i) && req == s.trans[i].req
      && (s.trans[i].phase.Preparing? || s.trans[i].phase.Altering?) && Past(t, i)
      && (req.Resize? || s.trans[i].stamp == s.gen)
    case Issued(p) => p !in s.ended
    case EndStarted(p) => p !in s.ended
    case EndSettled(p, _) => p in s.ended
  }

  /** A step that adds `e` starts to end a pool, or changes the configuration, only if `e` says so. */
  ghost predicate Accounts(s: State, t: State, e: Event) {
    && t.ended == (if e.EndStarted? then s.ended + {e.pool} else s.ended)
    && t.config == (if e.Published? then Apply(s.config, e.req) else s.config)
  }

  /** Requests keep their stamps, and a publication stays behind its transition. */
  ghost predicate Grows(s: State, t: State) {
    && |s.trans| <= |t.trans| && |s.discs| <= |t.discs|
    && (forall i :: 0 <= i < |s.trans| ==> t.trans[i].stamp == s.trans[i].stamp)
    && (forall i: nat :: Past(s, i) ==> Past(t, i))
  }

  /** The effect of a step on the history: at most one event, and it accounts for the change. */
  ghost predicate Logs(s: State, t: State) {
    && Grows(s, t)
    && ((t.log == s.log && t.ended == s.ended && t.config == s.config)
        || (|t.log| == |s.log| + 1 && t.log == s.log + [t.log[|s.log|]]
            && Allowed(s, t, t.log[|s.log|]) && Accounts(s, t, t.log[|s.log|])))
  }

  lemma BootPoolUsable(s: State)
    requires Inv(s) && s.boot.Booting?
    ensures 0 !in s.ended
  {
    if s.connected != 0 {
      var i: nat :| DrainsBoot(s, i);
      assert OwnedPhase(s, s.trans[i].phase);
    }
  }

  lemma OpPoolUsable(s: State, o: nat)
    requires Inv(s) && IsOp(s, o) && s.ops[o].phase != Settled
    ensures s.ops[o].pool !in s.ended
  {
    if s.ops[o].pool != s.connected {
      var i: nat :| Drains(s, i, o);
      assert OwnedPhase(s, s.trans[i].phase);
    }
  }

  lemma WorkPoolUsable(s: State, i: nat)
    requires Inv(s) && IsTrans(s, i) && (s.trans[i].phase.Preparing? || s.trans[i].phase.Altering?)
    ensures WorkPool(s.trans[i].phase) !in s.ended
  {
    assert OwnedPhase(s, s.trans[i].phase);
  }

  lemma LogClient(s: State, l: Label)
    requires Inv(s) && Enabled(s, l) && !Internal(l)
    ensures Logs(s, Next(s, l))
  {}

  lemma LogOps(s: State, l: Label)
    requires Inv(s) && Enabled(s, l)
    requires l.IssueOp? || l.RejectOp? || l.AnswerOp? || l.ForgetOp? || l.IssueBoot? || l.AnswerBoot? || l.FinishBoot?
    ensures Logs(s, Next(s, l))
  {
    if l.IssueOp? { OpPoolUsable(s, l.o); }
    if l.IssueBoot? { BootPoolUsable(s); }
  }

  lemma LogStart(s: State, i: nat, n: nat, created: bool)
    requires Enabled(s, Start(i, n, created))
    ensures Logs(s, Next(s, Start(i, n, created)))
  {}

  lemma LogResume(s: State, l: Label)
    requires Enabled(s, l) && (l.AfterDisconnect? || l.AfterConnection?)
    ensures Logs(s, Next(s, l))
  {}

  lemma LogIssue(s: State, i: nat)
    requires Inv(s) && Enabled(s, IssueWork(i))
    ensures Logs(s, Next(s, IssueWork(i)))
  {
    hide Inv;
    WorkPoolUsable(s, i);
  }

  lemma LogAnswer(s: State, i: nat, ok: bool)
    requires Inv(s) && Enabled(s, AnswerWork(i, ok))
    ensures Logs(s, Next(s, AnswerWork(i, ok)))
  {
    hide Inv;
    WorkPoolUsable(s, i);
  }

  lemma LogDiscarded(s: State, i: nat, ok: bool)
    requires Inv(s) && Enabled(s, EndDiscarded(i, ok))
    ensures Logs(s, Next(s, EndDiscarded(i, ok)))
  {
    hide Inv;
    TransFacts(s, i);
  }

  lemma LogDrained(s: State, i: nat)
    requires Inv(s) && Enabled(s, Drained(i))
    ensures Logs(s, Next(s, Drained(i)))
  {
    hide Inv;
    TransFacts(s, i);
  }

  lemma LogRetired(s: State, i: nat, ok: bool)
    requires Inv(s) && Enabled(s, EndRetired(i, ok))
    ensures Logs(s, Next(s, EndRetired(i, ok)))
  {
    hide Inv;
    TransFacts(s, i);
  }

  lemma LogPrepared(s: State, i: nat)
    requires Inv(s) && Enabled(s, FinishWork(i)) && s.trans[i].phase.Preparing?
    ensures Logs(s, DoFinishWork(s, i))
  {
    hide Inv, Next;
    TransFacts(s, i);
  }

  lemma LogAltered(s: State, i: nat)
    requires Inv(s) && Enabled(s, FinishWork(i)) && s.trans[i].phase.Altering?
    ensures Logs(s, DoFinishWork(s, i))
  {
    hide Inv, Next;
    TransFacts(s, i);
  }

  lemma LogFinish(s: State, i: nat)
    requires Inv(s) && Enabled(s, FinishWork(i))
    ensures Logs(s, Next(s, FinishWork(i)))
  {
    hide Inv, Logs;
    if s.trans[i].phase.Preparing? { LogPrepared(s, i); } else { LogAltered(s, i); }
  }

  lemma LogShutdown(s: State, l: Label)
    requires Inv(s) && Enabled(s, l) && (l.EndPool? || l.PoolEnded?)
    ensures Logs(s, Next(s, l))
  {
    ShutdownIsLast(s, l.d);
  }

  lemma LogTransition(s: State, l: Label)
    requires Inv(s) && Enabled(s, l)
    requires l.IssueWork? || l.AnswerWork? || l.FinishWork? || l.EndDiscarded? || l.Drained? || l.EndRetired?
    ensures Logs(s, Next(s, l))
  {
    hide Inv, Logs, Next, Enabled;
    match l
    case IssueWork(i) => LogIssue(s, i);
    case AnswerWork(i, ok) => LogAnswer(s, i, ok);
    case FinishWork(i) => LogFinish(s, i);
    case EndDiscarded(i, ok) => LogDiscarded(s, i, ok);
    case Drained(i) => LogDrained(s, i);
    case EndRetired(i, ok) => LogRetired(s, i, ok);
  }

  lemma LogStep(s: State, l: Label)
    requires Inv(s) && Enabled(s, l)
    ensures Logs(s, Next(s, l))
  {
    hide Inv, Logs, Next, Enabled;
    if !Internal(l) {
      LogClient(s, l);
    } else if l.Start? {
      LogStart(s, l.i, l.statements, l.created);
    } else if l.AfterDisconnect? || l.AfterConnection? {
      LogResume(s, l);
    } else if l.EndPool? || l.PoolEnded? {
      LogShutdown(s, l);
    } else if l.IssueWork? || l.AnswerWork? || l.FinishWork? || l.EndDiscarded? || l.Drained? || l.EndRetired? {
      LogTransition(s, l);
    } else {
      LogOps(s, l);
    }
  }

  /** A step replaces the published pool or connection only by publishing a `reconnect`, and clears the pool
      only when the `end()` of a shutdown has succeeded. */
  ghost predicate KeepsPool(s: State, l: Label, t: State) {
    || (t.pool == s.pool && t.connected == s.connected)
    || (|t.log| == |s.log| + 1 && t.log[|s.log|].Published? && t.log[|s.log|].req.Reconnect? && t.pool == Some(t.connected))
    || (l.PoolEnded? && l.ok && t.pool == None && t.connected == s.connected)
  }

  lemma PoolStep(s: State, l: Label)
    requires Enabled(s, l)
    ensures KeepsPool(s, l, Next(s, l))
  {}

  // ----- The log and the state agree -----

  /** Logged requests and shutdowns exist, and a request logged before a shutdown carries an older stamp. */
  ghost predicate Stamped(s: State) {
    && (forall a :: 0 <= a < |s.log| && s.log[a].Requested? ==> s.log[a].i < |s.trans|)
    && (forall a :: 0 <= a < |s.log| && s.log[a].Disconnecting? ==> s.log[a].d < |s.discs|)
    && (forall a, b :: 0 <= a < b < |s.log| ==>
          s.log[a].Requested? && s.log[b].Disconnecting? ==>
          s.log[a].i < |s.trans| && s.trans[s.log[a].i].stamp <= s.log[b].d)
  }

  ghost predicate LogInv(s: State, config: Config) {
    && SafeLog(s.log) && InOrder(s.log) && Cancelled(s.log)
    && s.config == Replay(config, s.log)
    && (forall a :: 0 <= a < |s.log| && s.log[a].EndStarted? ==> s.log[a].pool in s.ended)
    && Stamped(s)
    && (forall a :: 0 <= a < |s.log| && s.log[a].Published? ==> Past(s, s.log[a].i))
  }

  lemma ReplayAppend(config: Config, log: seq<Event>, e: Event)
    ensures Replay(config, log + [e])
         == if e.Published? then Apply(Replay(config, log), e.req) else Replay(config, log)
  {
    assert (log + [e])[..|log + [e]| - 1] == log;
  }

  lemma SafeAppend(s: State, t: State, config: Config)
    requires LogInv(s, config) && Logs(s, t)
    ensures SafeLog(t.log)
    ensures forall a :: 0 <= a < |t.log| && t.log[a].EndStarted? ==> t.log[a].pool in t.ended
  {}

  lemma OrderAppend(s: State, t: State, config: Config)
    requires Inv(s) && LogInv(s, config) && Logs(s, t)
    ensures InOrder(t.log)
    ensures forall a :: 0 <= a < |t.log| && t.log[a].Published? ==> Past(t, t.log[a].i)
  {
    if |t.log| > |s.log| && t.log[|s.log|].Published? {
      Alone(s, t.log[|s.log|].i);
      assert forall j: nat :: Past(s, j) ==> j < t.log[|s.log|].i;
    }
  }

  lemma StampAppend(s: State, t: State, config: Config)
    requires Inv(s) && LogInv(s, config) && Logs(s, t)
    ensures Stamped(t)
  {}

  lemma CancelAppend(s: State, t: State, config: Config)
    requires Inv(s) && LogInv(s, config) && Logs(s, t)
    ensures Cancelled(t.log)
  {
    forall a, b, c | 0 <= a < b < c < |t.log| && t.log[a].Requested? && t.log[b].Disconnecting?
                     && t.log[c].Published? && t.log[c].i == t.log[a].i
      ensures t.log[c].req.Resize?
    {
      if c == |s.log| {
        assert s.log[a].Requested? && s.log[b].Disconnecting?;
        assert Allowed(s, t, t.log[c]);
      } else {
        assert s.log[a].Requested? && s.log[b].Disconnecting? && s.log[c].Published?;
      }
    }
  }

  lemma LogInvAppend(s: State, t: State, config: Config)
    requires Inv(s) && LogInv(s, config) && Logs(s, t)
    ensures LogInv(t, config)
  {
    SafeAppend(s, t, config);
    OrderAppend(s, t, config);
    StampAppend(s, t, config);
    CancelAppend(s, t, config);
    if |t.log| > |s.log| { ReplayAppend(config, s.log, t.log[|s.log|]); }
  }

  /** What holds between any two turns of an adapter that was configured with `config`. */
  ghost predicate Sound(s: State, config: Config) { Inv(s) && LogInv(s, config) }

  lemma TurnIsSound(s: State, l: Label, config: Config)
    requires Sound(s, config) && Enabled(s, l)
    ensures Sound(Next(s, l), config)
  {
    StepInv(s, l);
    LogStep(s, l);
    LogInvAppend(s, Next(s, l), config);
  }

  /** The pools a transition may send statements to or end: the one it works on, or the one it drains. */
  function PoolOf(phase: Phase): Option<PoolId> {
    match phase
    case Preparing(next, _) => Some(next)
    case Altering(conn, _, _) => Some(conn)
    case Draining(prev, _, _) => prev
    case _ => None
  }

  /** No `end()` of the pool, if there is one, has been called. */
  predicate Usable(p: Option<PoolId>, ended: set<PoolId>) { p.Some? ==> p.value !in ended }

  /** Whatever may be used or ended next has not been ended. */
  lemma UsablePools(s: State, config: Config)
    requires Sound(s, config)
    ensures forall i :: 0 <= i < |s.trans| ==> Usable(PoolOf(s.trans[i].phase), s.ended)
    ensures forall o :: 0 <= o < |s.ops| && s.ops[o].phase != Settled ==> Usable(Some(s.ops[o].pool), s.ended)
    ensures s.boot.Booting? ==> Usable(Some(0), s.ended)
    ensures forall d :: 0 <= d < |s.discs| && s.discs[d].phase == Collecting ==> Usable(s.pool, s.ended)
  {
    forall i | 0 <= i < |s.trans| ensures Usable(PoolOf(s.trans[i].phase), s.ended) {
      assert OwnedPhase(s, s.trans[i].phase);
      if s.trans[i].phase.Preparing? || s.trans[i].phase.Altering? { WorkPoolUsable(s, i); }
    }
    forall o | 0 <= o < |s.ops| && s.ops[o].phase != Settled ensures Usable(Some(s.ops[o].pool), s.ended) {
      OpPoolUsable(s, o);
    }
    if s.boot.Booting? { BootPoolUsable(s); }
    forall d | 0 <= d < |s.discs| && s.discs[d].phase == Collecting ensures Usable(s.pool, s.ended) {
      ShutdownIsLast(s, d);
    }
  }

  lemma SoundMeans(s: State, config: Config)
    requires Sound(s, config)
    ensures SafeLog(s.log) && (s.timer <==> !s.disconnected && s.interval > 0)
    ensures forall i :: 0 <= i < |s.trans| && s.trans[i].phase.Preparing? ==> s.trans[i].req.Reconnect?
  {
    forall i | 0 <= i < |s.trans| && s.trans[i].phase.Preparing? ensures s.trans[i].req.Reconnect? {
      assert PhaseFits(s.trans[i]);
    }
  }

  // ----- The theorems -----

  lemma InitIsSound(config: Config, interval: int, n: nat)
    requires ValidInit(config, interval, n)
    ensures Sound(Init(config, interval, n), config)
  {
    hide Inv;
    InitInv(config, interval, n);
  }

  lemma {:induction false} RunLogInv(config: Config, interval: int, n: nat, ls: seq<Label>)
    requires ValidInit(config, interval, n) && Legal(Init(config, interval, n), ls)
    ensures Inv(Exec(Init(config, interval, n), ls))
    ensures LogInv(Exec(Init(config, interval, n), ls), config)
    decreases |ls|
  {
    InitInv(config, interval, n);
    if ls != [] {
      var front := ls[..|ls| - 1];
      RunLogInv(config, interval, n, front);
      TurnIsSound(Exec(Init(config, interval, n), front), ls[|ls| - 1], config);
    }
  }

  /** In every run no statement is sent to a pool whose end has begun, and no pool is ended twice. */
  lemma RunsAreSafe(config: Config, interval: int, n: nat, ls: seq<Label>)
    requires ValidInit(config, interval, n) && Legal(Init(config, interval, n), ls)
    ensures SafeLog(Exec(Init(config, interval, n), ls).log)
  {
    RunLogInv(config, interval, n, ls);
  }

  /** In every run the configuration is the initial one changed by the published requests, in the
      order they were made; a transition that fails before it publishes leaves no trace in it. */
  lemma RunsReplayTheirPublications(config: Config, interval: int, n: nat, ls: seq<Label>)
    requires ValidInit(config, interval, n) && Legal(Init(config, interval, n), ls)
    ensures var s := Exec(Init(config, interval, n), ls); InOrder(s.log) && s.config == Replay(config, s.log)
  {
    RunLogInv(config, interval, n, ls);
  }

  /** In every run a shutdown cancels the `reconnect` and `useTable` calls made before it. */
  lemma RunsCancel(config: Config, interval: int, n: nat, ls: seq<Label>)
    requires ValidInit(config, interval, n) && Legal(Init(config, interval, n), ls)
    ensures Cancelled(Exec(Init(config, interval, n), ls).log)
  {
    RunLogInv(config, interval, n, ls);
  }

  /** The transitions run one at a time, in the order they were requested. */
  lemma RunsAreSerial(config: Config, interval: int, n: nat, ls: seq<Label>, i: nat, j: nat)
    requires ValidInit(config, interval, n) && Legal(Init(config, interval, n), ls)
    requires var s := Exec(Init(config, interval, n), ls); i < j < |s.trans| && s.trans[j].phase != Queued
    ensures Exec(Init(config, interval, n), ls).trans[i].phase.Finished?
  {
    RunLogInv(config, interval, n, ls);
  }

  /** The cleanup timer is armed exactly while connected with a positive interval. */
  lemma RunsKeepTheTimer(config: Config, interval: int, n: nat, ls: seq<Label>)
    requires ValidInit(config, interval, n) && Legal(Init(config, interval, n), ls)
    ensures var s := Exec(Init(config, interval, n), ls); s.timer <==> (!s.disconnected && s.interval > 0)
  {
    RunLogInv(config, interval, n, ls);
  }

  /** Something the adapter sent to pool `p`, or is about to send, is not settled. */
  ghost predicate InUse(s: State, p: PoolId) {
    || (exists o :: 0 <= o < |s.ops| && s.ops[o].pool == p && s.ops[o].phase != Settled)
    || (s.boot.Booting? && p == 0)
    || (exists i :: 0 <= i < |s.trans| && (s.trans[i].phase.Preparing? || s.trans[i].phase.Altering?)
         && WorkPool(s.trans[i].phase) == p)
  }

  /** `end()` is called only on a pool whose queries have settled and that nothing will use. */
  lemma EndedPoolsAreIdle(config: Config, interval: int, n: nat, ls: seq<Label>, p: PoolId)
    requires ValidInit(config, interval, n) && Legal(Init(config, interval, n), ls)
    requires p in Exec(Init(config, interval, n), ls).ended
    ensures !InUse(Exec(Init(config, interval, n), ls), p)
  {
    RunLogInv(config, interval, n, ls);
    var s := Exec(Init(config, interval, n), ls);
    forall o: nat | IsOp(s, o) && s.ops[o].phase != Settled ensures s.ops[o].pool != p { OpPoolUsable(s, o); }
    forall i: nat | IsTrans(s, i) && (s.trans[i].phase.Preparing? || s.trans[i].phase.Altering?)
      ensures WorkPool(s.trans[i].phase) != p { WorkPoolUsable(s, i); }
    if s.boot.Booting? { BootPoolUsable(s); }
  }
}

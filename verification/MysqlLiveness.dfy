/** Who waits for whom, why every run in which the driver answers comes to rest, and what is
    open then. */
module MysqlLiveness {
  import opened Wrappers
  import opened MysqlLifecycle
  import opened MysqlInvariant
  import opened MysqlSafety

  // ----- The wait-for relation -----

  datatype Agent = BootAgent | OpAgent(o: nat) | TransAgent(i: nat) | DiscAgent(d: nat)

  ghost predicate Exists(s: State, a: Agent) {
    match a
    case BootAgent => true
    case OpAgent(o) => IsOp(s, o)
    case TransAgent(i) => IsTrans(s, i)
    case DiscAgent(d) => IsDisc(s, d)
  }

  /** The promise of the agent has settled. */
  ghost predicate AgentDone(s: State, a: Agent) {
    match a
    case BootAgent => s.boot.Booted?
    case OpAgent(o) => IsOp(s, o) ==> s.ops[o].phase == Settled
    case TransAgent(i) => IsTrans(s, i) ==> s.trans[i].phase.Finished?
    case DiscAgent(d) => IsDisc(s, d) ==> s.discs[d].phase.Closed?
  }

  /** `a` awaits a set of agents; the promises it holds for it are read off the program. */
  ghost predicate Awaits(s: State, a: Agent, b: Agent) {
    match a
    case BootAgent => false
    case OpAgent(o) => IsOp(s, o) && s.ops[o].phase == Waiting && s.ops[o].pool == 0 && b == BootAgent
    case TransAgent(i) =>
      IsTrans(s, i)
      && (match s.trans[i].phase
          case Queued => i > 0 && b == TransAgent(i - 1)
          case AwaitingDisconnect =>
            s.trans[i].req.Reconnect? && s.trans[i].req.after.Some? && b == DiscAgent(s.trans[i].req.after.value)
          case AwaitingConnection(conn, _) => conn == 0 && b == BootAgent
          case Draining(_, prevConnected, ops) =>
            (prevConnected == 0 && b == BootAgent) || (b.OpAgent? && b.o in ops)
          case _ => false)
    case DiscAgent(d) =>
      IsDisc(s, d) && s.discs[d].phase == Collecting
      && ((s.discs[d].conn == 0 && b == BootAgent)
          || (b.OpAgent? && b.o in s.discs[d].ops)
          || (s.discs[d].trans > 0 && b == TransAgent(s.discs[d].trans - 1)))
  }

  /** `a` cannot go on because `b` has not settled. */
  ghost predicate WaitsFor(s: State, a: Agent, b: Agent) {
    Exists(s, a) && Exists(s, b) && Awaits(s, a, b) && !AgentDone(s, b)
  }

  ghost function Rank(s: State, a: Agent): nat {
    match a
    case BootAgent => 0
    case OpAgent(_) => 1
    case TransAgent(i) => 2 + i + (if IsTrans(s, i) then s.trans[i].stamp else 0)
    case DiscAgent(d) => 2 + d + (if IsDisc(s, d) then s.discs[d].trans else 0)
  }

  lemma StampsGrow(s: State, i: nat, j: nat)
    requires ClockInv(s) && i < j < |s.trans|
    ensures s.trans[i].stamp <= s.trans[j].stamp
  {
    var d := s.trans[j].stamp;
    if d < |s.discs| { assert j < s.discs[d].trans; }
  }

  lemma WaitsDecrease(s: State, a: Agent, b: Agent)
    requires ClockInv(s) && RequestInv(s) && WaitsFor(s, a, b)
    ensures Rank(s, b) < Rank(s, a)
  {
    match a
    case TransAgent(i) =>
      if s.trans[i].phase.Queued? { StampsGrow(s, i - 1, i); }
    case _ =>
  }

  ghost predicate WaitChain(s: State, c: seq<Agent>) {
    forall k :: 0 <= k < |c| - 1 ==> WaitsFor(s, c[k], c[k + 1])
  }

  lemma {:induction false} ChainDecreases(s: State, c: seq<Agent>)
    requires ClockInv(s) && RequestInv(s) && WaitChain(s, c) && |c| > 1
    ensures Rank(s, c[|c| - 1]) < Rank(s, c[0])
  {
    var front := c[..|c| - 1];
    assert WaitsFor(s, c[|c| - 2], c[|c| - 2 + 1]);
    WaitsDecrease(s, c[|c| - 2], c[|c| - 1]);
    if |c| > 2 {
      forall k | 0 <= k < |front| - 1 ensures WaitsFor(s, front[k], front[k + 1]) {
        assert WaitsFor(s, c[k], c[k + 1]);
      }
      ChainDecreases(s, front);
    }
  }

  /** In no state of any run does anything wait, directly or through others, for itself. */
  lemma NoWaitCycle(config: Config, interval: int, n: nat, ls: seq<Label>, c: seq<Agent>)
    requires ValidInit(config, interval, n) && Legal(Init(config, interval, n), ls)
    requires |c| > 1 && WaitChain(Exec(Init(config, interval, n), ls), c)
    ensures c[0] != c[|c| - 1]
  {
    RunLogInv(config, interval, n, ls);
    ChainDecreases(Exec(Init(config, interval, n), ls), c);
  }

  // ----- Progress -----

  ghost predicate Quiescent(s: State) {
    && s.boot.Booted?
    && (forall o :: 0 <= o < |s.ops| ==> s.ops[o].phase == Settled)
    && s.pending == {}
    && (forall i :: 0 <= i < |s.trans| ==> s.trans[i].phase.Finished?)
    && (forall d :: 0 <= d < |s.discs| ==> s.discs[d].phase.Closed?)
  }

  lemma {:induction false} FirstUnfinished(s: State, k: nat) returns (i: nat)
    requires k <= |s.trans| && exists j :: k <= j < |s.trans| && !s.trans[j].phase.Finished?
    requires forall j :: 0 <= j < k ==> s.trans[j].phase.Finished?
    ensures i < |s.trans| && !s.trans[i].phase.Finished?
    ensures forall j :: 0 <= j < i ==> s.trans[j].phase.Finished?
    decreases |s.trans| - k
  {
    if s.trans[k].phase.Finished? { i := FirstUnfinished(s, k + 1); } else { i := k; }
  }

  lemma ProgressBoot(s: State) returns (l: Label)
    requires s.boot.Booting?
    ensures Internal(l) && Enabled(s, l)
  {
    l := if s.boot.work.busy then AnswerBoot(true) else if s.boot.work.left > 0 then IssueBoot else FinishBoot;
  }

  lemma ProgressOp(s: State, o: nat) returns (l: Label)
    requires s.boot.Booted? && IsOp(s, o) && s.ops[o].phase != Settled
    ensures Internal(l) && Enabled(s, l)
  {
    l := if s.ops[o].phase == Running then AnswerOp(o)
         else if ConnOk(s, s.ops[o].pool) then IssueOp(o) else RejectOp(o);
  }

  lemma ProgressDisc(s: State, d: nat) returns (l: Label)
    requires s.boot.Booted? && (forall o :: 0 <= o < |s.ops| ==> s.ops[o].phase == Settled)
    requires IsDisc(s, d) && !s.discs[d].phase.Closed?
    requires forall i :: 0 <= i < s.discs[d].trans && i < |s.trans| ==> s.trans[i].phase.Finished?
    ensures Internal(l) && Enabled(s, l)
  {
    l := if s.discs[d].phase == Collecting then EndPool(d) else PoolEnded(d, true);
  }

  lemma ProgressTrans(s: State, i: nat) returns (l: Label)
    requires Inv(s) && s.boot.Booted? && (forall o :: 0 <= o < |s.ops| ==> s.ops[o].phase == Settled)
    requires IsTrans(s, i) && !s.trans[i].phase.Finished?
    requires forall j :: 0 <= j < i ==> s.trans[j].phase.Finished?
    ensures Internal(l) && Enabled(s, l)
  {
    assert PhaseFits(s.trans[i]);
    match s.trans[i].phase
    case Queued => l := Start(i, 7, true);
    case AwaitingDisconnect =>
      var d := s.trans[i].req.after.value;
      assert IsDisc(s, d) && s.discs[d].trans <= i;
      if s.discs[d].phase.Closed? { l := AfterDisconnect(i, 7, true); } else { l := ProgressDisc(s, d); }
    case AwaitingConnection(_, target) => l := AfterConnection(i, if target.Table? then 7 else 2);
    case Preparing(_, work) =>
      l := if work.busy then AnswerWork(i, true) else if work.left > 0 then IssueWork(i) else FinishWork(i);
    case Altering(_, _, work) =>
      l := if work.busy then AnswerWork(i, true) else if work.left > 0 then IssueWork(i) else FinishWork(i);
    case Discarding(_) => l := EndDiscarded(i, true);
    case Draining(_, _, _) => l := Drained(i);
    case Retiring(_) => l := EndRetired(i, true);
  }

  /** Unless everything has settled, the adapter or the driver can take a step. */
  lemma Progress(s: State) returns (l: Label)
    requires Inv(s) && !Quiescent(s)
    ensures Internal(l) && Enabled(s, l)
  {
    if s.boot.Booting? {
      l := ProgressBoot(s);
    } else if o: nat :| IsOp(s, o) && s.ops[o].phase != Settled {
      l := ProgressOp(s, o);
    } else if s.pending != {} {
      var o :| o in s.pending;
      l := ForgetOp(o);
    } else if i: nat :| IsTrans(s, i) && !s.trans[i].phase.Finished? {
      var j := FirstUnfinished(s, 0);
      l := ProgressTrans(s, j);
    } else {
      var d: nat :| IsDisc(s, d) && !s.discs[d].phase.Closed?;
      l := ProgressDisc(s, d);
    }
  }

  // ----- Termination of the internal steps -----

  function OpWeight(op: Op, pending: bool): nat {
    match op.phase
    case Waiting => 4
    case Running => 3
    case Settled => if pending then 1 else 0
  }

  function WorkWeight(w: Work): nat { 5 + 2 * w.left + if w.busy then 1 else 0 }

  function TransWeight(p: Phase): nat {
    match p
    case Queued => 50
    case AwaitingDisconnect => 45
    case AwaitingConnection(_, _) => 40
    case Preparing(_, w) => WorkWeight(w)
    case Altering(_, _, w) => WorkWeight(w)
    case Draining(_, _, _) => 4
    case Discarding(_) => 3
    case Retiring(_) => 3
    case Finished(_) => 0
  }

  function DiscWeight(c: Closing): nat {
    match c
    case Collecting => 2
    case Ending(_) => 1
    case Closed(_) => 0
  }

  function Sum(w: seq<nat>): nat { if w == [] then 0 else w[0] + Sum(w[1..]) }

  lemma {:induction false} SumLess(a: seq<nat>, b: seq<nat>, k: nat)
    requires |a| == |b| && k < |a| && a[k] < b[k]
    requires forall i :: 0 <= i < |a| && i != k ==> a[i] == b[i]
    ensures Sum(a) < Sum(b)
  {
    if k == 0 { assert a[1..] == b[1..]; } else { SumLess(a[1..], b[1..], k - 1); }
  }

  function OpWeights(s: State): seq<nat> {
    seq(|s.ops|, o requires 0 <= o < |s.ops| => OpWeight(s.ops[o], o in s.pending))
  }

  function TransWeights(s: State): seq<nat> {
    seq(|s.trans|, i requires 0 <= i < |s.trans| => TransWeight(s.trans[i].phase))
  }

  function DiscWeights(s: State): seq<nat> {
    seq(|s.discs|, d requires 0 <= d < |s.discs| => DiscWeight(s.discs[d].phase))
  }

  /** An upper bound on the steps that can still happen without a call of a client. */
  function Remaining(s: State): nat {
    Sum(OpWeights(s)) + Sum(TransWeights(s)) + Sum(DiscWeights(s))
    + if s.boot.Booting? then WorkWeight(s.boot.work) else 0
  }

  lemma OpStepDecreases(s: State, l: Label)
    requires Inv(s) && Enabled(s, l) && (l.IssueOp? || l.RejectOp? || l.AnswerOp? || l.ForgetOp?)
    ensures Remaining(Next(s, l)) < Remaining(s)
  {
    var t := Next(s, l);
    SumLess(OpWeights(t), OpWeights(s), l.o);
    assert TransWeights(t) == TransWeights(s) && DiscWeights(t) == DiscWeights(s);
  }

  lemma BootStepDecreases(s: State, l: Label)
    requires Enabled(s, l) && (l.IssueBoot? || l.AnswerBoot? || l.FinishBoot?)
    ensures Remaining(Next(s, l)) < Remaining(s)
  {
    var t := Next(s, l);
    assert OpWeights(t) == OpWeights(s) && TransWeights(t) == TransWeights(s) && DiscWeights(t) == DiscWeights(s);
  }

  lemma DiscStepDecreases(s: State, l: Label)
    requires Enabled(s, l) && (l.EndPool? || l.PoolEnded?)
    ensures Remaining(Next(s, l)) < Remaining(s)
  {
    var t := Next(s, l);
    SumLess(DiscWeights(t), DiscWeights(s), l.d);
    assert OpWeights(t) == OpWeights(s) && TransWeights(t) == TransWeights(s);
  }

  lemma TransFrame(s: State, t: State, i: nat)
    requires IsTrans(s, i) && |t.trans| == |s.trans|
    requires forall j :: 0 <= j < |s.trans| && j != i ==> t.trans[j] == s.trans[j]
    requires TransWeight(t.trans[i].phase) < TransWeight(s.trans[i].phase)
    requires t.discs == s.discs && t.boot == s.boot && t.ops == s.ops && t.pending == s.pending
    ensures Remaining(t) < Remaining(s)
  {
    SumLess(TransWeights(t), TransWeights(s), i);
    assert DiscWeights(t) == DiscWeights(s);
    assert OpWeights(t) == OpWeights(s);
  }

  lemma StartDecreases(s: State, i: nat, n: nat, created: bool)
    requires Enabled(s, Start(i, n, created))
    ensures Remaining(Next(s, Start(i, n, created))) < Remaining(s)
  {
    hide Remaining;
    TransFrame(s, Next(s, Start(i, n, created)), i);
  }

  lemma ResumeDecreases(s: State, l: Label)
    requires Enabled(s, l) && (l.AfterDisconnect? || l.AfterConnection?)
    ensures Remaining(Next(s, l)) < Remaining(s)
  {
    hide Remaining;
    TransFrame(s, Next(s, l), l.i);
  }

  lemma WorkDecreases(s: State, l: Label)
    requires Enabled(s, l) && (l.IssueWork? || l.AnswerWork?)
    ensures Remaining(Next(s, l)) < Remaining(s)
  {
    hide Remaining;
    TransFrame(s, Next(s, l), l.i);
  }

  lemma FinishDecreases(s: State, i: nat)
    requires Inv(s) && Enabled(s, FinishWork(i))
    ensures Remaining(Next(s, FinishWork(i))) < Remaining(s)
  {
    hide Inv, Remaining;
    TransFacts(s, i);
    TransFrame(s, Next(s, FinishWork(i)), i);
  }

  lemma EndDecreases(s: State, l: Label)
    requires Enabled(s, l) && (l.EndDiscarded? || l.Drained? || l.EndRetired?)
    ensures Remaining(Next(s, l)) < Remaining(s)
  {
    hide Remaining;
    TransFrame(s, Next(s, l), l.i);
  }

  lemma StepDecreases(s: State, l: Label)
    requires Inv(s) && Enabled(s, l) && Internal(l)
    ensures Remaining(Next(s, l)) < Remaining(s)
  {
    hide Inv, Remaining, Next, Enabled;
    match l
    case IssueOp(_) | RejectOp(_) | AnswerOp(_) | ForgetOp(_) => OpStepDecreases(s, l);
    case IssueBoot | AnswerBoot(_) | FinishBoot => BootStepDecreases(s, l);
    case EndPool(_) | PoolEnded(_, _) => DiscStepDecreases(s, l);
    case Start(i, n, created) => StartDecreases(s, i, n, created);
    case AfterDisconnect(_, _, _) | AfterConnection(_, _) => ResumeDecreases(s, l);
    case IssueWork(_) | AnswerWork(_, _) => WorkDecreases(s, l);
    case FinishWork(i) => FinishDecreases(s, i);
    case EndDiscarded(_, _) | Drained(_) | EndRetired(_, _) => EndDecreases(s, l);
    case _ =>
  }

  /** Once clients make no further calls, a run has only finitely many steps left. */
  lemma {:induction false} InternalRunsEnd(s: State, ls: seq<Label>)
    requires Inv(s) && Legal(s, ls) && forall l :: l in ls ==> Internal(l)
    ensures Remaining(Exec(s, ls)) + |ls| <= Remaining(s)
    decreases |ls|
  {
    if ls != [] {
      var front := ls[..|ls| - 1];
      InternalRunsEnd(s, front);
      RunInv(s, front);
      StepDecreases(Exec(s, front), ls[|ls| - 1]);
    }
  }

  /** Every run can only stop when everything has settled: whatever clients did before, once they
      stop and the driver has answered everything, no query, transition or shutdown is left waiting. */
  lemma RunsComeToRest(config: Config, interval: int, n: nat, ls: seq<Label>)
    requires ValidInit(config, interval, n) && Legal(Init(config, interval, n), ls)
    requires forall l :: Internal(l) ==> !Enabled(Exec(Init(config, interval, n), ls), l)
    ensures Quiescent(Exec(Init(config, interval, n), ls))
  {
    RunLogInv(config, interval, n, ls);
    var s := Exec(Init(config, interval, n), ls);
    if !Quiescent(s) {
      var l := Progress(s);
    }
  }
}

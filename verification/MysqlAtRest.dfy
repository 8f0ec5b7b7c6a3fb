/** Which pools are open once a run has come to rest, and when a closed adapter can be revived. */
module MysqlAtRest {
  import opened Wrappers
  import opened MysqlLifecycle
  import opened MysqlInvariant
  import opened MysqlSafety
  import opened MysqlLiveness

  // ----- No pool is leaked -----

  ghost predicate NoFailedEnd(log: seq<Event>) {
    forall a :: 0 <= a < |log| && log[a].EndSettled? ==> log[a].ok
  }

  ghost predicate EndedWell(log: seq<Event>, p: PoolId) {
    exists a :: 0 <= a < |log| && log[a] == EndSettled(p, true)
  }

  /** A transition or a shutdown is waiting for the `end()` of pool `p`. */
  ghost predicate TransEnds(s: State, i: nat, p: PoolId) {
    IsTrans(s, i) && (s.trans[i].phase == Discarding(p) || s.trans[i].phase == Retiring(p))
  }

  ghost predicate DiscEnds(s: State, d: nat, p: PoolId) { IsDisc(s, d) && s.discs[d].phase == Ending(p) }

  ghost predicate Accounted(s: State, p: PoolId) {
    EndedWell(s.log, p) || (exists i :: TransEnds(s, i, p)) || (exists d :: DiscEnds(s, d, p))
  }

  ghost predicate EndInv(s: State) {
    && (forall a :: 0 <= a < |s.log| && s.log[a].EndSettled? ==> s.log[a].pool in s.ended)
    && (NoFailedEnd(s.log) ==>
          && (forall p :: p in s.ended ==> Accounted(s, p))
          && (forall d :: 0 <= d < |s.discs| ==> s.discs[d].phase != Closed(false)))
  }

  lemma EndedWellGrows(s: State, t: State, p: PoolId)
    requires s.log <= t.log && EndedWell(s.log, p)
    ensures EndedWell(t.log, p)
  {
    var a :| 0 <= a < |s.log| && s.log[a] == EndSettled(p, true);
    assert t.log[a] == EndSettled(p, true);
  }

  lemma NoFailedEndBefore(s: State, t: State)
    requires s.log <= t.log && NoFailedEnd(t.log)
    ensures NoFailedEnd(s.log)
  {
    forall a | 0 <= a < |s.log| && s.log[a].EndSettled? ensures s.log[a].ok { assert t.log[a] == s.log[a]; }
  }

  /** A pool that begins to be ended is ended by the transition or shutdown that takes the step. */
  lemma EndBegins(s: State, l: Label, p: PoolId)
    requires Enabled(s, l) && p !in s.ended && p in Next(s, l).ended
    requires l.AnswerWork? || l.FinishWork? || l.Drained? || l.EndPool?
    ensures if l.EndPool? then DiscEnds(Next(s, l), l.d, p) else TransEnds(Next(s, l), l.i, p)
  {}

  lemma EndsNowhereElse(s: State, l: Label)
    requires Enabled(s, l) && !l.AnswerWork? && !l.FinishWork? && !l.Drained? && !l.EndPool?
    ensures Next(s, l).ended == s.ended
  {}

  lemma OtherTransStays(s: State, l: Label, i: nat)
    requires Enabled(s, l) && IsTrans(s, i)
    requires l.Start? || l.AfterDisconnect? || l.AfterConnection? || l.IssueWork? || l.AnswerWork? || l.FinishWork?
          || l.EndDiscarded? || l.Drained? || l.EndRetired?
    requires l.i != i
    ensures IsTrans(Next(s, l), i) && Next(s, l).trans[i] == s.trans[i]
  {}

  lemma AllTransStay(s: State, l: Label, i: nat)
    requires Enabled(s, l) && IsTrans(s, i)
    requires !(l.Start? || l.AfterDisconnect? || l.AfterConnection? || l.IssueWork? || l.AnswerWork? || l.FinishWork?
               || l.EndDiscarded? || l.Drained? || l.EndRetired?)
    ensures IsTrans(Next(s, l), i) && Next(s, l).trans[i] == s.trans[i]
  {}

  /** Only the answer to its `end()` moves a transition that waits for it. */
  lemma EndingTransStays(s: State, l: Label, i: nat)
    requires Enabled(s, l) && IsTrans(s, i) && (s.trans[i].phase.Discarding? || s.trans[i].phase.Retiring?)
    requires !((l.EndDiscarded? || l.EndRetired?) && l.i == i)
    ensures IsTrans(Next(s, l), i) && Next(s, l).trans[i] == s.trans[i]
  {
    hide Next;
    if l.Start? || l.AfterDisconnect? || l.AfterConnection? || l.IssueWork? || l.AnswerWork? || l.FinishWork?
       || l.EndDiscarded? || l.Drained? || l.EndRetired? {
      OtherTransStays(s, l, i);
    } else {
      AllTransStay(s, l, i);
    }
  }

  lemma EndAnswered(s: State, l: Label)
    requires Enabled(s, l) && (l.EndDiscarded? || l.EndRetired?)
    ensures var phase := s.trans[l.i].phase;
            Next(s, l).log == s.log + [EndSettled(if phase.Discarding? then phase.next else phase.prior, l.ok)]
  {}

  lemma TransEndsStep(s: State, l: Label, i: nat, p: PoolId)
    requires Enabled(s, l) && TransEnds(s, i, p) && NoFailedEnd(Next(s, l).log)
    ensures TransEnds(Next(s, l), i, p) || EndedWell(Next(s, l).log, p)
  {
    hide Next;
    if (l.EndDiscarded? || l.EndRetired?) && l.i == i {
      EndAnswered(s, l);
      assert Next(s, l).log[|s.log|] == EndSettled(p, l.ok);
    } else {
      EndingTransStays(s, l, i);
    }
  }

  lemma EndingDiscStays(s: State, l: Label, d: nat)
    requires Enabled(s, l) && IsDisc(s, d) && s.discs[d].phase.Ending? && !(l.PoolEnded? && l.d == d)
    ensures IsDisc(Next(s, l), d) && Next(s, l).discs[d] == s.discs[d]
  {}

  lemma DiscEndsStep(s: State, l: Label, d: nat, p: PoolId)
    requires Enabled(s, l) && DiscEnds(s, d, p) && NoFailedEnd(Next(s, l).log)
    ensures DiscEnds(Next(s, l), d, p) || EndedWell(Next(s, l).log, p)
  {
    hide Next;
    if l.PoolEnded? && l.d == d {
      PoolEndedStep(s, d, l.ok);
      assert Next(s, l).log[|s.log|] == EndSettled(p, l.ok);
    } else {
      EndingDiscStays(s, l, d);
    }
  }

  lemma PoolEndedStep(s: State, d: nat, ok: bool)
    requires Enabled(s, PoolEnded(d, ok))
    ensures Next(s, PoolEnded(d, ok)).discs == s.discs[d := s.discs[d].(phase := Closed(ok))]
    ensures Next(s, PoolEnded(d, ok)).log == s.log + [EndSettled(s.discs[d].phase.pool, ok)]
  {}

  lemma DiscsStep(s: State, l: Label)
    requires Enabled(s, l) && !l.PoolEnded?
    ensures var t := Next(s, l);
            forall d :: 0 <= d < |t.discs| ==>
              t.discs[d].phase != Closed(false) || (d < |s.discs| && s.discs[d] == t.discs[d])
  {}

  lemma ClosedStep(s: State, l: Label)
    requires Enabled(s, l) && NoFailedEnd(Next(s, l).log)
    requires forall d :: 0 <= d < |s.discs| ==> s.discs[d].phase != Closed(false)
    ensures forall d :: 0 <= d < |Next(s, l).discs| ==> Next(s, l).discs[d].phase != Closed(false)
  {
    if l.PoolEnded? {
      PoolEndedStep(s, l.d, l.ok);
      assert Next(s, l).log[|s.log|].ok;
    } else {
      DiscsStep(s, l);
    }
  }

  lemma EndInvStep(s: State, l: Label)
    requires Inv(s) && EndInv(s) && Enabled(s, l)
    ensures EndInv(Next(s, l))
  {
    hide Inv, Next, Enabled, Accounted;
    var t := Next(s, l);
    LogStep(s, l);
    if NoFailedEnd(t.log) {
      NoFailedEndBefore(s, t);
      ClosedStep(s, l);
      forall p | p in t.ended ensures Accounted(t, p) { AccountedStep(s, l, p); }
    }
  }

  lemma AccountedStep(s: State, l: Label, p: PoolId)
    requires Inv(s) && Enabled(s, l) && NoFailedEnd(Next(s, l).log) && s.log <= Next(s, l).log
    requires p in Next(s, l).ended && (p in s.ended ==> Accounted(s, p))
    ensures Accounted(Next(s, l), p)
  {
    hide Inv, Next, Enabled, NoFailedEnd, EndedWell;
    var t := Next(s, l);
    if p !in s.ended {
      if !l.AnswerWork? && !l.FinishWork? && !l.Drained? && !l.EndPool? {
        EndsNowhereElse(s, l);
      } else {
        EndBegins(s, l, p);
      }
    } else if EndedWell(s.log, p) {
      EndedWellGrows(s, t, p);
    } else if i: nat :| TransEnds(s, i, p) {
      TransEndsStep(s, l, i, p);
    } else {
      var d: nat :| DiscEnds(s, d, p);
      DiscEndsStep(s, l, d, p);
    }
  }

  lemma {:induction false} RunEndInv(config: Config, interval: int, n: nat, ls: seq<Label>)
    requires ValidInit(config, interval, n) && Legal(Init(config, interval, n), ls)
    ensures EndInv(Exec(Init(config, interval, n), ls))
    decreases |ls|
  {
    if ls != [] {
      var front := ls[..|ls| - 1];
      RunEndInv(config, interval, n, front);
      RunLogInv(config, interval, n, front);
      EndInvStep(Exec(Init(config, interval, n), front), ls[|ls| - 1]);
    }
  }

  /** A pool the driver still holds open: created, and no `end()` of it has succeeded. */
  ghost predicate Open(s: State, p: PoolId) { p < s.pools && !EndedWell(s.log, p) }

  /** At rest, if no `end()` failed, the open pools are the published one, or none when disconnected. */
  lemma OpenPoolsAtRest(config: Config, interval: int, n: nat, ls: seq<Label>, p: PoolId)
    requires ValidInit(config, interval, n) && Legal(Init(config, interval, n), ls)
    requires var s := Exec(Init(config, interval, n), ls); Quiescent(s) && NoFailedEnd(s.log)
    ensures var s := Exec(Init(config, interval, n), ls);
            Open(s, p) <==> (!s.disconnected && s.pool == Some(p))
  {
    RunLogInv(config, interval, n, ls);
    RunEndInv(config, interval, n, ls);
    var s := Exec(Init(config, interval, n), ls);
    if p < s.pools && p !in s.ended {
      assert s.pool == Some(p) || exists i :: Holds(s, i, p);
    }
    if s.disconnected { assert s.discs[|s.discs| - 1].phase == Closed(true); }
  }

  // ----- When a closed adapter can be reconnected -----

  /** After a rejected `end()` only what was requested later is unfinished, and it waits for that shutdown. */
  lemma Stranded(s: State)
    requires Inv(s) && s.disconnected && Last(s).phase == Closed(false)
    ensures |s.discs| > 0 && s.disconnecting.Some? && forall d :: 0 <= d < |s.discs| ==> s.discs[d].phase.Closed?
    ensures forall i :: 0 <= i < |s.trans| ==>
              s.trans[i].phase.Queued? || s.trans[i].phase.Finished? || s.trans[i].phase.AwaitingDisconnect?
    ensures forall i :: 0 <= i < |s.trans| && !s.trans[i].phase.Finished? && s.trans[i].req.Reconnect? ==>
              s.trans[i].req.after == Some(|s.discs| - 1)
  {
    hide OpsInv, BootInv, HeldInv, OwnedInv, PublishedInv, LimitsInv, TimerInv;
    forall i | 0 <= i < |s.trans| && !s.trans[i].phase.Finished?
      ensures s.trans[i].phase.Queued? || s.trans[i].phase.AwaitingDisconnect?
      ensures s.trans[i].req.Reconnect? ==> s.trans[i].req.after == Some(|s.discs| - 1)
    {
      assert Late(s, i);
      TransFacts(s, i);
    }
  }

  lemma FailedEndStays(s: State, l: Label)
    requires Inv(s) && Enabled(s, l) && s.disconnected && Last(s).phase == Closed(false)
    ensures var t := Next(s, l);
            t.disconnected && t.discs == s.discs && t.pool == s.pool && t.config.uri == s.config.uri
  {
    hide Inv;
    Stranded(s);
  }

  /** After a shutdown whose `end()` was rejected, no `reconnect` ever succeeds again. */
  lemma {:induction false} FailedEndIsFinal(s: State, ls: seq<Label>)
    requires Inv(s) && s.disconnected && Last(s).phase == Closed(false) && Legal(s, ls)
    ensures var t := Exec(s, ls);
            t.disconnected && t.discs == s.discs && t.pool == s.pool && t.config.uri == s.config.uri
    decreases |ls|
  {
    if ls != [] {
      var front := ls[..|ls| - 1];
      FailedEndIsFinal(s, front);
      RunInv(s, front);
      FailedEndStays(Exec(s, front), ls[|ls| - 1]);
    }
  }

  lemma Extend(s: State, ls: seq<Label>, l: Label)
    requires Legal(s, ls) && Enabled(Exec(s, ls), l)
    ensures Legal(s, ls + [l]) && Exec(s, ls + [l]) == Next(Exec(s, ls), l)
  {
    assert (ls + [l])[..|ls + [l]| - 1] == ls;
  }

  /** Everything has settled but shutdown `d`. */
  ghost predicate OnlyLeft(s: State, d: nat, c: Closing) {
    && s.boot.Booted? && s.pending == {} && s.disconnected && |s.discs| == d + 1 && s.discs[d].phase == c
    && (forall o :: 0 <= o < |s.ops| ==> s.ops[o].phase == Settled)
    && (forall i :: 0 <= i < |s.trans| ==> s.trans[i].phase.Finished?)
    && (forall e :: 0 <= e < d ==> s.discs[e].phase.Closed?)
  }

  lemma RestDisconnects(s: State)
    requires Inv(s) && Quiescent(s) && !s.disconnected
    ensures OnlyLeft(Next(s, CallDisconnect), |s.discs|, Collecting) && Next(s, CallDisconnect).pool.Some?
  {
    hide ShutdownInv, OwnedInv, OpsInv, BootInv, HeldInv, LimitsInv, QueueInv, FitInv, RequestInv;
  }

  lemma RestEnds(s: State, d: nat)
    requires OnlyLeft(s, d, Collecting) && s.pool.Some?
    ensures Enabled(s, EndPool(d)) && OnlyLeft(Next(s, EndPool(d)), d, Ending(s.pool.value))
  {}

  lemma RestFails(s: State, d: nat, p: PoolId)
    requires OnlyLeft(s, d, Ending(p))
    ensures Enabled(s, PoolEnded(d, false)) && OnlyLeft(Next(s, PoolEnded(d, false)), d, Closed(false))
  {}

  /** Whenever a connected adapter is at rest, one rejected `end()` in a shutdown strands it. */
  lemma RejectedEndStrands(s: State, done: seq<Label>) returns (ls: seq<Label>)
    requires Legal(s, done) && Inv(Exec(s, done)) && Quiescent(Exec(s, done)) && !Exec(s, done).disconnected
    ensures Legal(s, ls)
    ensures var t := Exec(s, ls);
            Quiescent(t) && t.disconnected && |t.discs| > 0 && Last(t).phase == Closed(false)
  {
    hide Inv, Next;
    var u := Exec(s, done);
    var d := |u.discs|;
    RestDisconnects(u);
    Extend(s, done, CallDisconnect);
    var v := Next(u, CallDisconnect);
    RestEnds(v, d);
    Extend(s, done + [CallDisconnect], EndPool(d));
    RestFails(Next(v, EndPool(d)), d, v.pool.value);
    Extend(s, done + [CallDisconnect] + [EndPool(d)], PoolEnded(d, false));
    ls := done + [CallDisconnect] + [EndPool(d)] + [PoolEnded(d, false)];
  }

  lemma StrandedForever(s: State)
    requires Inv(s) && s.disconnected && Last(s).phase == Closed(false)
    ensures forall more :: Legal(s, more) ==> Exec(s, more).disconnected
  {
    hide Inv;
    forall more | Legal(s, more) ensures Exec(s, more).disconnected { FailedEndIsFinal(s, more); }
  }

  lemma FailedInitRests(s: State)
    requires s.boot == Booted(false) && s.ops == [] && s.pending == {} && s.trans == [] && s.discs == []
    ensures Quiescent(s)
  {}

  /** Such a run exists from the start, for every configuration: no `reconnect` can follow it. */
  lemma StrandedRun(config: Config, interval: int, n: nat) returns (ls: seq<Label>)
    requires ValidInit(config, interval, n)
    ensures Legal(Init(config, interval, n), ls)
    ensures var s := Exec(Init(config, interval, n), ls);
            && Quiescent(s) && s.disconnected && |s.discs| > 0 && Last(s).phase == Closed(false)
            && forall more :: Legal(s, more) ==> Exec(s, more).disconnected
  {
    hide Inv, Quiescent;
    var s0 := Init(config, interval, n);
    Extend(s0, [], IssueBoot);
    Extend(s0, [] + [IssueBoot], AnswerBoot(false));
    var start := [] + [IssueBoot] + [AnswerBoot(false)];
    RunLogInv(config, interval, n, start);
    FailedInitRests(Exec(s0, start));
    ls := RejectedEndStrands(s0, start);
    RunLogInv(config, interval, n, ls);
    StrandedForever(Exec(s0, ls));
  }

  ghost predicate PreparingOn(s: State, i: nat, uri: string, next: PoolId, left: nat) {
    IsTrans(s, i) && s.trans[i].phase == Preparing(next, Work(left, false))
    && s.trans[i].req.Reconnect? && s.trans[i].req.uri == uri && s.trans[i].req.gen == s.gen
  }

  lemma AnswerOne(s: State, i: nat, uri: string, next: PoolId, left: nat)
    requires PreparingOn(s, i, uri, next, left) && left > 0
    ensures Enabled(s, IssueWork(i)) && Enabled(Next(s, IssueWork(i)), AnswerWork(i, true))
    ensures PreparingOn(Next(Next(s, IssueWork(i)), AnswerWork(i, true)), i, uri, next, left - 1)
  {}

  /** The driver answers every statement of a `reconnect` that is being prepared. */
  lemma {:induction false} AnswerAll(s: State, ls: seq<Label>, i: nat, uri: string, next: PoolId, left: nat)
    returns (more: seq<Label>)
    requires Legal(s, ls) && PreparingOn(Exec(s, ls), i, uri, next, left)
    ensures Legal(s, more) && PreparingOn(Exec(s, more), i, uri, next, 0)
    decreases left
  {
    more := ls;
    if left > 0 {
      AnswerOne(Exec(s, ls), i, uri, next, left);
      Extend(s, ls, IssueWork(i));
      Extend(s, ls + [IssueWork(i)], AnswerWork(i, true));
      more := AnswerAll(s, ls + [IssueWork(i)] + [AnswerWork(i, true)], i, uri, next, left - 1);
    }
  }

  lemma ReviveRequest(s: State, uri: string)
    requires Inv(s) && Quiescent(s) && s.disconnected && Last(s).phase == Closed(true)
    ensures var t := Next(s, CallReconnect(uri)); var i := |s.trans|;
            && Enabled(t, Start(i, 7, true))
            && Enabled(Next(t, Start(i, 7, true)), AfterDisconnect(i, 7, true))
            && PreparingOn(Next(Next(t, Start(i, 7, true)), AfterDisconnect(i, 7, true)), i, uri, s.pools, 7)
  {}

  lemma RevivePublish(s: State, i: nat, uri: string, next: PoolId)
    requires PreparingOn(s, i, uri, next, 0)
    ensures Enabled(s, FinishWork(i))
    ensures var t := Next(s, FinishWork(i)); !t.disconnected && t.config.uri == uri && t.pool == Some(next)
  {}

  /** After a shutdown that closed its pool, a `reconnect` can bring the adapter back. */
  lemma ReconnectRevives(s: State, uri: string) returns (ls: seq<Label>)
    requires Inv(s) && Quiescent(s) && s.disconnected && Last(s).phase == Closed(true)
    ensures Legal(s, ls) && !Exec(s, ls).disconnected && Exec(s, ls).config.uri == uri
  {
    var i := |s.trans|;
    ReviveRequest(s, uri);
    Extend(s, [], CallReconnect(uri));
    Extend(s, [] + [CallReconnect(uri)], Start(i, 7, true));
    Extend(s, [] + [CallReconnect(uri)] + [Start(i, 7, true)], AfterDisconnect(i, 7, true));
    ls := AnswerAll(s, [] + [CallReconnect(uri)] + [Start(i, 7, true)] + [AfterDisconnect(i, 7, true)],
                    i, uri, s.pools, 7);
    RevivePublish(Exec(s, ls), i, uri, s.pools);
    Extend(s, ls, FinishWork(i));
    ls := ls + [FinishWork(i)];
  }

  /** A disconnected adapter at rest can be connected again exactly when its last shutdown closed
      the pool; if `end()` was rejected, every later `reconnect` is rejected as well. */
  lemma RevivableExactly(config: Config, interval: int, n: nat, done: seq<Label>)
    requires ValidInit(config, interval, n) && Legal(Init(config, interval, n), done)
    requires var s := Exec(Init(config, interval, n), done); Quiescent(s) && s.disconnected && |s.discs| > 0
    ensures var s := Exec(Init(config, interval, n), done);
            (exists ls :: Legal(s, ls) && !Exec(s, ls).disconnected) <==> Last(s).phase == Closed(true)
  {
    RunLogInv(config, interval, n, done);
    var s := Exec(Init(config, interval, n), done);
    if Last(s).phase == Closed(true) {
      var ls := ReconnectRevives(s, s.config.uri);
    } else {
      forall ls | Legal(s, ls) ensures Exec(s, ls).disconnected { FailedEndIsFinal(s, ls); }
    }
  }
}

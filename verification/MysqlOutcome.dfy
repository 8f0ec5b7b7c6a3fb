/** What a resolved call has achieved: outcomes of the configuration transitions, over whole runs. */
module MysqlOutcome {
  import opened Wrappers
  import opened MysqlLifecycle
  import opened MysqlInvariant
  import opened MysqlSafety
  import opened MysqlLiveness
  import opened MysqlAtRest

  // ----- The turns that decide an outcome -----

  /** A `useTable` that gets its turn fails when disconnected, is done when the table is in use already, and
      otherwise waits for the connection. */
  lemma UseTableTurn(s: State, i: nat, n: nat, created: bool)
    requires Enabled(s, Start(i, n, created)) && s.trans[i].req.UseTable?
    ensures var phase, table := Next(s, Start(i, n, created)).trans[i].phase, s.trans[i].req.table;
            && (phase == Finished(false) <==> s.disconnected)
            && (phase == Finished(true) <==> !s.disconnected && s.config.table == table)
            && (phase.AwaitingConnection? <==> !s.disconnected && s.config.table != table)
  {}

  /** The lengths a `resizeKeyColumns` asks for: those given, and for the others those in force. */
  predicate AsksFor(req: Request, config: Config, k: int, n: int) {
    && req.Resize?
    && (match req.keyLength case Some(given) => k == given case None => k == config.keyLength)
    && (match req.namespaceLength case Some(given) => n == given case None => n == config.namespaceLength)
  }

  /** A `resizeKeyColumns` that gets its turn fails when disconnected, or when a length is not a positive safe
      integer or both in four-byte characters exceed 3072 bytes; it is done when nothing changes. */
  lemma ResizeTurn(s: State, i: nat, n: nat, created: bool, k: int, m: int)
    requires Enabled(s, Start(i, n, created)) && AsksFor(s.trans[i].req, s.config, k, m)
    ensures var phase := Next(s, Start(i, n, created)).trans[i].phase;
            var valid := 0 < k <= 9_007_199_254_740_991 && 0 < m <= 9_007_199_254_740_991 && 4 * (k + m) <= 3072;
            && (phase == Finished(false) <==> s.disconnected || !valid)
            && (phase == Finished(true) <==> !s.disconnected && valid && k == s.config.keyLength && m == s.config.namespaceLength)
            && (phase.AwaitingConnection? <==>
                  !s.disconnected && valid && !(k == s.config.keyLength && m == s.config.namespaceLength))
  {}

  /** A failed connection or statement fails the transition; so does a new pool whose preparation failed, once
      it is closed, and a `reconnect` whose previous pool could not be closed. */
  lemma FailureFails(s: State, l: Label)
    requires Enabled(s, l)
    ensures l.AfterConnection? && s.trans[l.i].phase.conn == 0 && s.boot == Booted(false) ==>
              Next(s, l).trans[l.i].phase == Finished(false)
    ensures l.AnswerWork? && !l.ok && s.trans[l.i].phase.Altering? ==> Next(s, l).trans[l.i].phase == Finished(false)
    ensures l.AnswerWork? && !l.ok && s.trans[l.i].phase.Preparing? ==> Next(s, l).trans[l.i].phase.Discarding?
    ensures l.EndDiscarded? ==> Next(s, l).trans[l.i].phase == Finished(false)
    ensures l.EndRetired? ==> Next(s, l).trans[l.i].phase == Finished(l.ok)
  {}

  /** The label is a turn of transition `i`. */
  predicate TurnOf(l: Label, i: nat) {
    (l.Start? || l.AfterDisconnect? || l.AfterConnection? || l.IssueWork? || l.AnswerWork? || l.FinishWork?
     || l.EndDiscarded? || l.Drained? || l.EndRetired?) && l.i == i
  }

  /** Only its own turns change a transition. */
  lemma OthersTurns(s: State, l: Label, i: nat)
    requires Enabled(s, l) && IsTrans(s, i) && !TurnOf(l, i)
    ensures IsTrans(Next(s, l), i) && Next(s, l).trans[i] == s.trans[i]
  {
    hide Next, Enabled;
    if l.Start? || l.AfterDisconnect? || l.AfterConnection? || l.IssueWork? || l.AnswerWork? || l.FinishWork?
       || l.EndDiscarded? || l.Drained? || l.EndRetired? {
      OtherTransStays(s, l, i);
    } else {
      AllTransStay(s, l, i);
    }
  }

  /** A finished transition stays as it is. */
  lemma FinishedStays(s: State, l: Label, i: nat)
    requires Enabled(s, l) && IsTrans(s, i) && s.trans[i].phase.Finished?
    ensures IsTrans(Next(s, l), i) && Next(s, l).trans[i] == s.trans[i]
  {
    hide Next;
    OthersTurns(s, l, i);
  }

  lemma StartTurns(s: State, l: Label)
    requires Enabled(s, l) && (l.Start? || l.AfterDisconnect? || l.AfterConnection?)
    ensures |Next(s, l).trans| == |s.trans| && Next(s, l).trans[l.i].req == s.trans[l.i].req
  {}

  lemma WorkTurns(s: State, l: Label)
    requires Enabled(s, l) && (l.IssueWork? || l.AnswerWork? || l.FinishWork?)
    ensures |Next(s, l).trans| == |s.trans| && Next(s, l).trans[l.i].req == s.trans[l.i].req
  {}

  lemma EndTurns(s: State, l: Label)
    requires Enabled(s, l) && (l.EndDiscarded? || l.Drained? || l.EndRetired?)
    ensures |Next(s, l).trans| == |s.trans| && Next(s, l).trans[l.i].req == s.trans[l.i].req
  {}

  /** A turn keeps the request. */
  lemma OwnTurns(s: State, l: Label, i: nat)
    requires Enabled(s, l) && TurnOf(l, i)
    ensures IsTrans(s, i) && |Next(s, l).trans| == |s.trans| && Next(s, l).trans[i].req == s.trans[i].req
  {
    assert IsTrans(s, i);
    hide Next, Enabled;
    if l.Start? || l.AfterDisconnect? || l.AfterConnection? {
      StartTurns(s, l);
    } else if l.IssueWork? || l.AnswerWork? || l.FinishWork? {
      WorkTurns(s, l);
    } else {
      EndTurns(s, l);
    }
  }

  lemma RequestsStay(s: State, l: Label, i: nat)
    requires Enabled(s, l) && IsTrans(s, i)
    ensures IsTrans(Next(s, l), i) && Next(s, l).trans[i].req == s.trans[i].req
  {
    hide Next, Enabled;
    if TurnOf(l, i) { OwnTurns(s, l, i); } else { OthersTurns(s, l, i); }
  }

  /** A transition begins in the queue. */
  lemma NewIsQueued(s: State, l: Label, i: nat)
    requires Enabled(s, l) && !IsTrans(s, i) && IsTrans(Next(s, l), i)
    ensures Next(s, l).trans[i].phase == Queued
  {
    hide Next, Enabled;
    if l.Start? || l.AfterDisconnect? || l.AfterConnection? || l.IssueWork? || l.AnswerWork? || l.FinishWork?
       || l.EndDiscarded? || l.Drained? || l.EndRetired? {
      OwnTurns(s, l, l.i);
    } else {
      CallsQueue(s, l, i);
    }
  }

  lemma CallsQueue(s: State, l: Label, i: nat)
    requires Enabled(s, l) && !IsTrans(s, i) && IsTrans(Next(s, l), i)
    requires !(l.Start? || l.AfterDisconnect? || l.AfterConnection? || l.IssueWork? || l.AnswerWork? || l.FinishWork?
               || l.EndDiscarded? || l.Drained? || l.EndRetired?)
    ensures Next(s, l).trans[i].phase == Queued
  {}

  // ----- What a resolved transition has achieved -----

  ghost predicate HasPublished(s: State, i: nat) {
    IsTrans(s, i) && exists a :: 0 <= a < |s.log| && s.log[a] == Published(i, s.trans[i].req)
  }

  /** The request asks for what is in force. */
  ghost predicate AsksForTheSame(s: State, req: Request) {
    && !s.disconnected
    && match req
       case Reconnect(_, _, _) => false
       case UseTable(table) => s.config.table == table
       case Resize(_, _) => AsksFor(req, s.config, s.config.keyLength, s.config.namespaceLength)
  }

  /** The transition got its turn when what it asked for was in force. */
  ghost predicate NothingToDo(s0: State, ls: seq<Label>, i: nat)
    requires Legal(s0, ls)
  {
    exists k :: 0 <= k < |ls| && NothingToDoAt(s0, ls, i, k)
  }

  ghost predicate NothingToDoAt(s0: State, ls: seq<Label>, i: nat, k: nat)
    requires Legal(s0, ls) && k < |ls|
  {
    && ls[k].Start? && ls[k].i == i && Legal(s0, ls[..k]) && IsTrans(Exec(s0, ls[..k]), i)
    && AsksForTheSame(Exec(s0, ls[..k]), Exec(s0, ls[..k]).trans[i].req)
  }

  /** Resolved, or past its publication and on its way there. */
  ghost predicate Achieved(s: State, i: nat) {
    IsTrans(s, i)
    && (s.trans[i].phase == Finished(true) || s.trans[i].phase.Draining? || s.trans[i].phase.Retiring?)
  }

  lemma StartAchieves(s: State, i: nat, n: nat, created: bool)
    requires Enabled(s, Start(i, n, created)) && ValidLimits(s.config.keyLength, s.config.namespaceLength)
    ensures Achieved(Next(s, Start(i, n, created)), i) <==> AsksForTheSame(s, s.trans[i].req)
    ensures Achieved(Next(s, Start(i, n, created)), i) ==> Next(s, Start(i, n, created)).trans[i].phase == Finished(true)
  {
    hide Next;
    OwnTurns(s, Start(i, n, created), i);
    match s.trans[i].req
    case UseTable(_) => UseTableTurn(s, i, n, created);
    case Resize(kl, nl) =>
      ResizeTurn(s, i, n, created, if kl.Some? then kl.value else s.config.keyLength,
                 if nl.Some? then nl.value else s.config.namespaceLength);
    case Reconnect(_, _, _) => StartReconnects(s, i, n, created);
  }

  lemma StartReconnects(s: State, i: nat, n: nat, created: bool)
    requires Enabled(s, Start(i, n, created)) && s.trans[i].req.Reconnect?
    ensures !Achieved(Next(s, Start(i, n, created)), i)
  {}

  lemma OtherTurnsAchieveNothing(s: State, l: Label, i: nat)
    requires Enabled(s, l) && TurnOf(l, i) && !l.Start? && !l.FinishWork? && !Achieved(s, i)
    ensures !Achieved(Next(s, l), i)
  {}

  lemma PublishesOwn(s: State, i: nat)
    requires Enabled(s, FinishWork(i)) && PhaseFits(s.trans[i])
    ensures Achieved(Next(s, FinishWork(i)), i) ==>
              Next(s, FinishWork(i)).log == s.log + [Published(i, s.trans[i].req)]
    ensures Next(s, FinishWork(i)).log == s.log + [Published(i, s.trans[i].req)] && s.trans[i].phase.Altering? ==>
              Next(s, FinishWork(i)).trans[i].phase == Finished(true)
  {}

  /** Only a publication, or a turn with nothing to do, achieves a transition. */
  lemma AchievedStep(s: State, l: Label, i: nat)
    requires Inv(s) && Enabled(s, l) && Achieved(Next(s, l), i) && !Achieved(s, i)
    ensures IsTrans(s, i) && Next(s, l).trans[i].req == s.trans[i].req
    ensures HasPublished(Next(s, l), i) || (l.Start? && l.i == i && AsksForTheSame(s, s.trans[i].req))
  {
    hide Inv, Next;
    if !IsTrans(s, i) {
      NewIsQueued(s, l, i);
    } else {
      RequestsStay(s, l, i);
      TransFacts(s, i);
      if !TurnOf(l, i) {
        OthersTurns(s, l, i);
      } else if l.Start? {
        StartAchieves(s, i, l.statements, l.created);
      } else if l.FinishWork? {
        PublishesOwn(s, i);
        assert Next(s, l).log[|s.log|] == Published(i, Next(s, l).trans[i].req);
      } else {
        OtherTurnsAchieveNothing(s, l, i);
      }
    }
  }

  lemma PublishedStays(s: State, l: Label, i: nat)
    requires Inv(s) && Enabled(s, l) && HasPublished(s, i)
    ensures HasPublished(Next(s, l), i)
  {
    hide Inv, Next, Enabled;
    LogStep(s, l);
    RequestsStay(s, l, i);
    var a :| 0 <= a < |s.log| && s.log[a] == Published(i, s.trans[i].req);
    assert Next(s, l).log[a] == s.log[a];
  }

  lemma NothingToDoMore(s0: State, ls: seq<Label>, l: Label, i: nat)
    requires Legal(s0, ls) && Legal(s0, ls + [l]) && Enabled(Exec(s0, ls), l)
    ensures NothingToDo(s0, ls + [l], i) <==>
            NothingToDo(s0, ls, i)
            || (l.Start? && l.i == i && AsksForTheSame(Exec(s0, ls), Exec(s0, ls).trans[i].req))
  {
    var more := ls + [l];
    assert more[..|ls|] == ls;
    assert forall k :: 0 <= k < |ls| ==> more[..k] == ls[..k];
    assert forall k :: 0 <= k < |ls| ==> (NothingToDoAt(s0, more, i, k) <==> NothingToDoAt(s0, ls, i, k));
    if l.Start? && l.i == i && AsksForTheSame(Exec(s0, ls), Exec(s0, ls).trans[i].req) {
      assert NothingToDoAt(s0, more, i, |ls|);
    }
    if NothingToDo(s0, ls, i) {
      var k :| 0 <= k < |ls| && NothingToDoAt(s0, ls, i, k);
      assert NothingToDoAt(s0, more, i, k);
    }
  }

  /** In every run, a transition that has resolved has published a configuration of its own, or asked for what
      was in force when it got its turn. */
  lemma {:induction false} ResolvedMeans(config: Config, interval: int, n: nat, ls: seq<Label>, i: nat)
    requires ValidInit(config, interval, n) && Legal(Init(config, interval, n), ls)
    requires Achieved(Exec(Init(config, interval, n), ls), i)
    ensures HasPublished(Exec(Init(config, interval, n), ls), i) || NothingToDo(Init(config, interval, n), ls, i)
    decreases |ls|
  {
    hide Inv, LogInv, Next, Enabled, HasPublished, NothingToDo;
    var s0 := Init(config, interval, n);
    if ls != [] {
      var front, l := ls[..|ls| - 1], ls[|ls| - 1];
      assert ls == front + [l];
      RunLogInv(config, interval, n, front);
      var s := Exec(s0, front);
      NothingToDoMore(s0, front, l, i);
      if Achieved(s, i) {
        ResolvedMeans(config, interval, n, front, i);
        if HasPublished(s, i) { PublishedStays(s, l, i); }
      } else {
        AchievedStep(s, l, i);
      }
    }
  }

  lemma {:induction false} NothingToDoResolves(config: Config, interval: int, n: nat, ls: seq<Label>, i: nat)
    requires ValidInit(config, interval, n) && Legal(Init(config, interval, n), ls)
    requires NothingToDo(Init(config, interval, n), ls, i)
    ensures var t := Exec(Init(config, interval, n), ls); IsTrans(t, i) && t.trans[i].phase == Finished(true)
    decreases |ls|
  {
    hide Inv, LogInv, Next, Enabled, AsksForTheSame;
    var s0 := Init(config, interval, n);
    if ls != [] {
      var front, l := ls[..|ls| - 1], ls[|ls| - 1];
      assert ls == front + [l];
      RunLogInv(config, interval, n, front);
      var s := Exec(s0, front);
      NothingToDoMore(s0, front, l, i);
      if NothingToDo(s0, front, i) {
        NothingToDoResolves(config, interval, n, front, i);
        FinishedStays(s, l, i);
      } else {
        OwnTurns(s, l, i);
        TransFacts(s, i);
        StartAchieves(s, i, l.statements, l.created);
      }
    }
  }

  /** The step adds a publication to the history. */
  ghost predicate Publishes(s: State, t: State) { |t.log| == |s.log| + 1 && t.log[|s.log|].Published? }

  lemma CallsPublishNothing(s: State, l: Label)
    requires Enabled(s, l) && !(l.Start? || l.AfterDisconnect? || l.AfterConnection? || l.IssueWork? || l.AnswerWork?
                                || l.FinishWork? || l.EndDiscarded? || l.Drained? || l.EndRetired?)
    ensures !Publishes(s, Next(s, l))
  {}

  lemma TurnsPublishNothing(s: State, l: Label)
    requires Enabled(s, l) && (l.Start? || l.AfterDisconnect? || l.AfterConnection? || l.IssueWork? || l.AnswerWork?)
    ensures !Publishes(s, Next(s, l))
  {}

  lemma EndsPublishNothing(s: State, l: Label)
    requires Enabled(s, l) && (l.EndDiscarded? || l.Drained? || l.EndRetired?)
    ensures !Publishes(s, Next(s, l))
  {}

  lemma OnlyFinishPublishes(s: State, l: Label)
    requires Enabled(s, l) && Publishes(s, Next(s, l))
    ensures l.FinishWork?
  {
    hide Next, Enabled, Publishes;
    if l.Start? || l.AfterDisconnect? || l.AfterConnection? || l.IssueWork? || l.AnswerWork? {
      TurnsPublishNothing(s, l);
    } else if l.EndDiscarded? || l.Drained? || l.EndRetired? {
      EndsPublishNothing(s, l);
    } else if !l.FinishWork? {
      CallsPublishNothing(s, l);
    }
  }

  lemma FinishPublishes(s: State, j: nat, i: nat)
    requires Enabled(s, FinishWork(j)) && IsTrans(s, i) && !s.trans[i].req.Reconnect? && PhaseFits(s.trans[i])
    requires |Next(s, FinishWork(j)).log| == |s.log| + 1
    requires Next(s, FinishWork(j)).log[|s.log|] == Published(i, s.trans[i].req)
    ensures Next(s, FinishWork(j)).trans[i].phase == Finished(true)
  {}

  /** What has published for a `useTable` or a `resizeKeyColumns` has resolved it. */
  lemma PublishedStep(s: State, l: Label, i: nat)
    requires Inv(s) && Enabled(s, l) && !HasPublished(s, i) && HasPublished(Next(s, l), i)
    requires !Next(s, l).trans[i].req.Reconnect?
    requires forall a :: 0 <= a < |s.log| && s.log[a].Published? ==> Past(s, s.log[a].i)
    ensures Next(s, l).trans[i].phase == Finished(true)
  {
    hide Inv, Next, Enabled;
    var t := Next(s, l);
    LogStep(s, l);
    var a :| 0 <= a < |t.log| && t.log[a] == Published(i, t.trans[i].req);
    if a < |s.log| { assert s.log[a] == Published(i, t.trans[i].req); }
    assert IsTrans(s, i);
    RequestsStay(s, l, i);
    assert a == |s.log|;
    OnlyFinishPublishes(s, l);
    TransFacts(s, i);
    FinishPublishes(s, l.i, i);
  }

  lemma {:induction false} PublishedResolves(config: Config, interval: int, n: nat, ls: seq<Label>, i: nat)
    requires ValidInit(config, interval, n) && Legal(Init(config, interval, n), ls)
    requires HasPublished(Exec(Init(config, interval, n), ls), i)
    requires !Exec(Init(config, interval, n), ls).trans[i].req.Reconnect?
    ensures Exec(Init(config, interval, n), ls).trans[i].phase == Finished(true)
    decreases |ls|
  {
    hide Inv, Next, Enabled;
    var s0 := Init(config, interval, n);
    if ls != [] {
      var front, l := ls[..|ls| - 1], ls[|ls| - 1];
      RunLogInv(config, interval, n, front);
      var s := Exec(s0, front);
      if HasPublished(s, i) {
        RequestsStay(s, l, i);
        PublishedResolves(config, interval, n, front, i);
        FinishedStays(s, l, i);
      } else {
        PublishedStep(s, l, i);
      }
    }
  }

  /** In every run a `useTable` or a `resizeKeyColumns` has resolved exactly when it has published its setting,
      or asked for what was in force when it got its turn. */
  lemma ResolvedExactly(config: Config, interval: int, n: nat, ls: seq<Label>, i: nat)
    requires ValidInit(config, interval, n) && Legal(Init(config, interval, n), ls)
    requires IsTrans(Exec(Init(config, interval, n), ls), i) && !Exec(Init(config, interval, n), ls).trans[i].req.Reconnect?
    ensures var s := Exec(Init(config, interval, n), ls);
            s.trans[i].phase == Finished(true) <==> HasPublished(s, i) || NothingToDo(Init(config, interval, n), ls, i)
  {
    hide Next, Enabled, HasPublished, NothingToDo;
    var s := Exec(Init(config, interval, n), ls);
    if s.trans[i].phase == Finished(true) {
      ResolvedMeans(config, interval, n, ls, i);
    } else if HasPublished(s, i) {
      PublishedResolves(config, interval, n, ls, i);
    } else if NothingToDo(Init(config, interval, n), ls, i) {
      NothingToDoResolves(config, interval, n, ls, i);
    }
  }

  /** A `reconnect` that has resolved has published its uri. */
  lemma ReconnectedMeans(config: Config, interval: int, n: nat, ls: seq<Label>, i: nat)
    requires ValidInit(config, interval, n) && Legal(Init(config, interval, n), ls)
    requires var s := Exec(Init(config, interval, n), ls);
             IsTrans(s, i) && s.trans[i].req.Reconnect? && s.trans[i].phase == Finished(true)
    ensures HasPublished(Exec(Init(config, interval, n), ls), i)
  {
    ResolvedMeans(config, interval, n, ls, i);
    if !HasPublished(Exec(Init(config, interval, n), ls), i) { ReconnectsAskAnew(config, interval, n, ls, i); }
  }

  lemma {:induction false} ReconnectsAskAnew(config: Config, interval: int, n: nat, ls: seq<Label>, i: nat)
    requires ValidInit(config, interval, n) && Legal(Init(config, interval, n), ls)
    requires NothingToDo(Init(config, interval, n), ls, i)
    ensures IsTrans(Exec(Init(config, interval, n), ls), i) && !Exec(Init(config, interval, n), ls).trans[i].req.Reconnect?
    decreases |ls|
  {
    hide Inv, LogInv, Next, Enabled;
    if ls != [] {
      var front, l := ls[..|ls| - 1], ls[|ls| - 1];
      assert ls == front + [l];
      var s := Exec(Init(config, interval, n), front);
      NothingToDoMore(Init(config, interval, n), front, l, i);
      if NothingToDo(Init(config, interval, n), front, i) {
        ReconnectsAskAnew(config, interval, n, front, i);
      } else {
        OwnTurns(s, l, i);
      }
      RequestsStay(s, l, i);
    }
  }

  // ----- A connected adapter at rest can be given a table and lengths -----

  ghost predicate AlteringOn(s: State, i: nat, target: Target, left: nat, config: Config, gen: nat) {
    IsTrans(s, i) && s.trans[i].phase.Altering? && s.trans[i].phase.target == target
    && s.trans[i].phase.work == Work(left, false) && s.config == config && s.gen == gen
  }

  lemma AlterOne(s: State, i: nat, target: Target, left: nat, config: Config, gen: nat)
    requires AlteringOn(s, i, target, left, config, gen) && left > 0
    ensures Enabled(s, IssueWork(i)) && Enabled(Next(s, IssueWork(i)), AnswerWork(i, true))
    ensures AlteringOn(Next(Next(s, IssueWork(i)), AnswerWork(i, true)), i, target, left - 1, config, gen)
  {}

  /** The driver answers every statement of an alteration. */
  lemma {:induction false} AlterAll(s: State, ls: seq<Label>, i: nat, target: Target, left: nat, config: Config, gen: nat)
    returns (more: seq<Label>)
    requires Legal(s, ls) && AlteringOn(Exec(s, ls), i, target, left, config, gen)
    ensures ls <= more && Legal(s, more) && AlteringOn(Exec(s, more), i, target, 0, config, gen)
    decreases left
  {
    more := ls;
    if left > 0 {
      hide Next, Enabled, AlteringOn;
      AlterOne(Exec(s, ls), i, target, left, config, gen);
      Extend(s, ls, IssueWork(i));
      Extend(s, ls + [IssueWork(i)], AnswerWork(i, true));
      more := AlterAll(s, ls + [IssueWork(i)] + [AnswerWork(i, true)], i, target, left - 1, config, gen);
    }
  }

  ghost predicate AtRest(s: State) { Inv(s) && Quiescent(s) && !s.disconnected && s.boot == Booted(true) }

  lemma CallsAreEnabled(s: State, l: Label)
    requires l.CallUseTable? || l.CallResize?
    ensures Enabled(s, l)
  {}

  lemma TableBegins(s: State, table: string)
    requires AtRest(s) && table != s.config.table
    ensures var t, i := Next(s, CallUseTable(table)), |s.trans|;
            && Enabled(t, Start(i, 7, true))
            && Enabled(Next(t, Start(i, 7, true)), AfterConnection(i, 7))
            && AlteringOn(Next(Next(t, Start(i, 7, true)), AfterConnection(i, 7)), i, Table(table, s.gen), 7, s.config, s.gen)
  {
    hide Inv;
  }

  lemma TableEnds(s: State, i: nat, table: string, config: Config, gen: nat)
    requires AlteringOn(s, i, Table(table, gen), 0, config, gen)
    ensures Enabled(s, FinishWork(i)) && Next(s, FinishWork(i)).config == Config(config.uri, table, config.keyLength, config.namespaceLength)
    ensures IsTrans(Next(s, FinishWork(i)), i) && Next(s, FinishWork(i)).trans[i].phase == Finished(true)
  {}

  lemma LimitsBegin(s: State, k: int, n: int)
    requires AtRest(s) && 0 < k && 0 < n && 4 * (k + n) <= 3072 && !(k == s.config.keyLength && n == s.config.namespaceLength)
    ensures var t, i := Next(s, CallResize(Some(k), Some(n))), |s.trans|;
            && Enabled(t, Start(i, 7, true))
            && Enabled(Next(t, Start(i, 7, true)), AfterConnection(i, 2))
            && AlteringOn(Next(Next(t, Start(i, 7, true)), AfterConnection(i, 2)), i, Limits(k, n), 2, s.config, s.gen)
  {
    hide Inv;
  }

  lemma LimitsEnd(s: State, i: nat, k: int, n: int, config: Config, gen: nat)
    requires AlteringOn(s, i, Limits(k, n), 0, config, gen)
    ensures Enabled(s, FinishWork(i)) && Next(s, FinishWork(i)).config == Config(config.uri, config.table, k, n)
    ensures IsTrans(Next(s, FinishWork(i)), i) && Next(s, FinishWork(i)).trans[i].phase == Finished(true)
  {}

  lemma NothingToAdopt(s: State, l: Label)
    requires AtRest(s)
    requires l == CallUseTable(s.config.table) || l == CallResize(Some(s.config.keyLength), Some(s.config.namespaceLength))
    ensures var t, i := Next(s, l), |s.trans|;
            Enabled(t, Start(i, 7, true)) && Next(t, Start(i, 7, true)).config == s.config
            && IsTrans(Next(t, Start(i, 7, true)), i) && Next(t, Start(i, 7, true)).trans[i].phase == Finished(true)
  {
    hide OrderInv, UseInv, HeldInv, TimerInv;
  }

  /** From every connected state at rest whose initialization has succeeded there is a run in which
      `useTable(table)` resolves and the adapter uses that table, with everything else as it was. */
  lemma TableAdopted(s: State, table: string) returns (ls: seq<Label>)
    requires AtRest(s)
    ensures ls != [] && ls[0] == CallUseTable(table) && Legal(s, ls)
    ensures var t := Exec(s, ls);
            && t.config == Config(s.config.uri, table, s.config.keyLength, s.config.namespaceLength)
            && IsTrans(t, |s.trans|) && t.trans[|s.trans|].phase == Finished(true)
  {
    hide AtRest, AlteringOn, Next, Enabled;
    var i := |s.trans|;
    var call: Label := CallUseTable(table);
    CallsAreEnabled(s, call);
    Extend(s, [], call);
    if table == s.config.table {
      NothingToAdopt(s, call);
      Extend(s, [] + [call], Start(i, 7, true));
      ls := [] + [call] + [Start(i, 7, true)];
    } else {
      TableBegins(s, table);
      Extend(s, [] + [call], Start(i, 7, true));
      Extend(s, [] + [call] + [Start(i, 7, true)], AfterConnection(i, 7));
      var begun := [] + [call] + [Start(i, 7, true)] + [AfterConnection(i, 7)];
      ls := AlterAll(s, begun, i, Table(table, s.gen), 7, s.config, s.gen);
      TableEnds(Exec(s, ls), i, table, s.config, s.gen);
      Extend(s, ls, FinishWork(i));
      ls := ls + [FinishWork(i)];
    }
  }

  /** So there is one for `resizeKeyColumns` and any two lengths that fit. */
  lemma LimitsAdopted(s: State, k: int, n: int) returns (ls: seq<Label>)
    requires AtRest(s) && 0 < k && 0 < n && 4 * (k + n) <= 3072
    ensures ls != [] && ls[0] == CallResize(Some(k), Some(n)) && Legal(s, ls)
    ensures var t := Exec(s, ls);
            && t.config == Config(s.config.uri, s.config.table, k, n)
            && IsTrans(t, |s.trans|) && t.trans[|s.trans|].phase == Finished(true)
  {
    hide AtRest, AlteringOn, Next, Enabled;
    var i := |s.trans|;
    var call := CallResize(Some(k), Some(n));
    CallsAreEnabled(s, call);
    Extend(s, [], call);
    if k == s.config.keyLength && n == s.config.namespaceLength {
      NothingToAdopt(s, call);
      Extend(s, [] + [call], Start(i, 7, true));
      ls := [] + [call] + [Start(i, 7, true)];
    } else {
      LimitsBegin(s, k, n);
      Extend(s, [] + [call], Start(i, 7, true));
      Extend(s, [] + [call] + [Start(i, 7, true)], AfterConnection(i, 2));
      var begun := [] + [call] + [Start(i, 7, true)] + [AfterConnection(i, 2)];
      ls := AlterAll(s, begun, i, Limits(k, n), 2, s.config, s.gen);
      LimitsEnd(Exec(s, ls), i, k, n, s.config, s.gen);
      Extend(s, ls, FinishWork(i));
      ls := ls + [FinishWork(i)];
    }
  }

  // ----- Queries -----

  /** A query on a disconnected adapter is rejected at once and leaves no trace.  On a connected one whose
      initialization has succeeded it can be sent at once, to the published pool; after a failed initialization
      it can only be rejected. */
  lemma QueryIsSent(s: State)
    requires Inv(s)
    ensures s.disconnected ==> Next(s, Query) == s
    ensures !s.disconnected ==>
              var t, o := Next(s, Query), |s.ops|;
              && |t.ops| == o + 1 && s.pool == Some(t.ops[o].pool)
              && (t.ops[o].pool != 0 || s.boot == Booted(true) ==>
                    Enabled(t, IssueOp(o)) && !Enabled(t, RejectOp(o))
                    && Next(t, IssueOp(o)).log == s.log + [Issued(s.pool.value)])
              && (t.ops[o].pool == 0 && s.boot == Booted(false) ==> Enabled(t, RejectOp(o)) && !Enabled(t, IssueOp(o)))
  {
    hide ShutdownInv, OwnedInv, OpsInv, BootInv, HeldInv, OrderInv;
  }
}

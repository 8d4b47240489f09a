/**
 * What reapChildren marks as "this cannot happen": a display that waits to be
 * started loses its server. When a waiting display has one.
 */
module LifecycleIdle {
  import opened Wrappers
  import opened Displays
  import opened Lifecycle
  import opened LifecycleInv
  import opened LifecycleLists
  import opened LifecycleRuns

  /** Waits to be started, with a server left over. */
  predicate Idle(d: Display) {
    d.status == NotRunning && d.serverPid != NONE
  }

  /** A session ends, its display is to come up again, and nothing tells the server to end. */
  predicate SessionLeaves(g: Globals, e: Event, d: Display) {
    && e.Reap? && d.pid == e.pid && d.serverPid != NONE
    && d.status != Zombie && !g.stopping && !g.sdDue
    && d.info.lifetime != Transient && !d.info.cfg.terminateServer
    && (|| (e.exit == ExNormal && d.info.lifetime != ReserveOnly)
        || (d.status == Raiser && e.exit in {ExOpenFailed, ExSigterm, ExAlReserver, ExReserver}))
  }

  /** The server is ready, but no process can be forked for the session. */
  predicate SessionForkFails(starting: Option<nat>, e: Event, d: Display) {
    e.ServerReady? && e.fork == NONE && starting == Some(d.Id()) && d.serverStatus == Starting
  }

  predicate LeavesServer(s: Daemon, e: Event, d: Display) {
    SessionLeaves(GlobalsOf(s), e, d) || SessionForkFails(s.starting, e, d)
  }

  // ----- One display -----

  lemma EndIdle(f: Focus, g: Globals, e: Event)
    requires FocusOk(f) && !f.gone && e.Reap? && e.pid > 0 && f.d.pid == e.pid
    ensures var f' := ReapSession(f, g, e.exit, e.fork);
      (!f'.gone && Idle(f'.d)) <==> SessionLeaves(g, e, f.d)
  {}

  lemma ActIdle(f: Focus, g: Globals, e: Event)
    requires FocusOk(f) && SlotIdle(f) && !f.gone && Aimed(f, g, e) && !Idle(f.d)
    ensures var f' := Act(f, g, e);
      (!f'.gone && Idle(f'.d)) <==> SessionLeaves(g, e, f.d) || SessionForkFails(f.starting, e, f.d)
  {
    if e.Reap? && f.d.pid == e.pid { EndIdle(f, g, e); }
  }

  /**
   * A display comes to wait with a live server in two cases only: its session ends
   * and the server is kept for the next one, or the server has got ready and the
   * session cannot be forked.
   */
  lemma IdleExactly(s: Daemon, e: Event, id: nat)
    requires Inv(s) && Possible(s, e) && Has(s.ds, id) && !Idle(Get(s.ds, id))
    ensures (Has(Step(s, e).ds, id) && Idle(Get(Step(s, e).ds, id))) <==> LeavesServer(s, e, Get(s.ds, id))
  {
    if e.Stoppen? {
      StopEachIds(s, Ids(s.ds), e.force, id);
    } else if e.Admit? {
      if !s.stopping { AdmitFacts(s, e.info, id); }
    } else if Target(s, e) != Some(IndexOf(s.ds, id)) {
      InvIsListed(s);
      OthersUntouched(s, e, id);
      NotAimed(s, e, id);
    } else {
      var k, f' := TargetBecomes(s, e);
      ActIdle(FocusAt(s, k), GlobalsOf(s), e);
    }
  }

  lemma NotAimed(s: Daemon, e: Event, id: nat)
    requires Inv(s) && Possible(s, e) && Has(s.ds, id) && Target(s, e) != Some(IndexOf(s.ds, id))
    ensures !LeavesServer(s, e, Get(s.ds, id))
  {
    if e.Reap? {
      var i, r := IndexOf(s.ds, id), FindByPid(s.ds, e.pid);
      assert r.Some? ==> r.value < i || i < r.value;
    }
  }

  // ----- Whole runs -----

  /** No display waits with a server. */
  ghost predicate NoneIdle(s: Daemon) {
    forall x :: Has(s.ds, x) ==> !Idle(Get(s.ds, x))
  }

  ghost predicate LeavesNone(s: Daemon, e: Event) {
    forall x :: Has(s.ds, x) ==> !LeavesServer(s, e, Get(s.ds, x))
  }

  /** reapChildren gets to the case in question. */
  predicate ReapsIdle(s: Daemon, e: Event) {
    && e.Reap? && FindByPid(s.ds, e.pid).None?
    && var r := FindByServerPid(s.ds, e.pid); r.Some? && s.ds[r.value].status == NotRunning
  }

  lemma ServerIsFound(ds: seq<Display>, i: nat)
    requires DistinctPids(ds) && i < |ds| && ds[i].serverPid != NONE
    ensures var pid := ds[i].serverPid; pid > 0 && FindByPid(ds, pid).None? && FindByServerPid(ds, pid) == Some(i)
  {
    var pid := ds[i].serverPid;
    forall j | 0 <= j < |ds| ensures ds[j].pid != pid {}
  }

  /** It can get there exactly in those states. */
  lemma ReapsIdleExactly(s: Daemon)
    requires Inv(s)
    ensures (exists e :: Possible(s, e) && ReapsIdle(s, e)) <==> !NoneIdle(s)
  {
    hide DistinctPids, HeadMost, SlotOk, StatusOk;
    if e :| Possible(s, e) && ReapsIdle(s, e) {
      ByPosition(s.ds, FindByServerPid(s.ds, e.pid).value);
    }
    if x :| Has(s.ds, x) && Idle(Get(s.ds, x)) {
      var i := IndexOf(s.ds, x);
      ServerIsFound(s.ds, i);
      var e := Reap(s.ds[i].serverPid, ExOther, NONE);
      assert Possible(s, e) && ReapsIdle(s, e);
    }
  }

  lemma NewcomerNotIdle(s: Daemon, e: Event, x: nat)
    requires Inv(s) && Possible(s, e) && !Has(s.ds, x) && Has(Step(s, e).ds, x)
    ensures !Idle(Get(Step(s, e).ds, x))
  {
    hide Act, PutBack, FocusOk, Moved, SlotOk;
    if e.Stoppen? {
      StopEachIds(s, Ids(s.ds), e.force, x);
    } else if e.Admit? && !s.stopping {
      StopNamedOk(s, e.info.name);
      StopNamedFacts(s, e.info.name, x);
      AdmitInv(s, e.info);
      NewDisplayGets(StopNamed(s, e.info.name), e.info);
    } else if Target(s, e).Some? {
      var k, f' := TargetBecomes(s, e);
    } else if e.ManageCmd? && Manageable(s.ds, e.name) {
      NewDisplayInv(s, CommandInfo(e.name, e.cfg));
      NewDisplayGets(s, CommandInfo(e.name, e.cfg));
    }
  }

  lemma NoneIdleStep(s: Daemon, e: Event)
    requires Inv(s) && Possible(s, e) && NoneIdle(s)
    ensures NoneIdle(Step(s, e)) <==> LeavesNone(s, e)
  {
    forall x | Has(s.ds, x)
      ensures (Has(Step(s, e).ds, x) && Idle(Get(Step(s, e).ds, x))) <==> LeavesServer(s, e, Get(s.ds, x))
    {
      IdleExactly(s, e, x);
    }
    forall x | Has(Step(s, e).ds, x) && !Has(s.ds, x) ensures !Idle(Get(Step(s, e).ds, x)) {
      NewcomerNotIdle(s, e, x);
    }
  }

  ghost predicate NoneIdleRun(s: Daemon, es: seq<Event>)
    decreases |es|
  {
    NoneIdle(s) && (es == [] || NoneIdleRun(Step(s, es[0]), es[1..]))
  }

  ghost predicate LeavesNoneRun(s: Daemon, es: seq<Event>)
    decreases |es|
  {
    es == [] || (LeavesNone(s, es[0]) && LeavesNoneRun(Step(s, es[0]), es[1..]))
  }

  /** The comment is right throughout a run exactly if no event of it leaves a server. */
  lemma {:induction false} NoneIdleExactly(s: Daemon, es: seq<Event>)
    requires Inv(s) && NoneIdle(s) && PossibleRun(s, es) && TameRun(s, es)
    ensures NoneIdleRun(s, es) <==> LeavesNoneRun(s, es)
    decreases |es|
  {
    if es != [] {
      var s' := Step(s, es[0]);
      StepInv(s, es[0]);
      NoneIdleStep(s, es[0]);
      if NoneIdle(s') {
        NoneIdleExactly(s', es[1..]);
      }
    }
  }

  /** In particular from any start-up state, where no display has a server. */
  lemma NoneIdleFromStart(s0: Daemon, es: seq<Event>)
    requires Initial(s0) && PossibleRun(s0, es) && TameRun(s0, es)
    ensures NoneIdleRun(s0, es) <==> LeavesNoneRun(s0, es)
  {
    InitialInv(s0);
    assert NoneIdle(s0);
    NoneIdleExactly(s0, es);
  }

  /** An ordinary log-out is such an event. */
  lemma IdleServerMayDie()
    ensures var es := LOGOUT_DURING_LAUNCH[..6]; var s := Run(TWO_HEADS, es);
      && Initial(TWO_HEADS) && PossibleRun(TWO_HEADS, es)
      && Possible(s, Reap(10, ExOther, NONE)) && ReapsIdle(s, Reap(10, ExOther, NONE))
  {
    var es, ss := LOGOUT_DURING_LAUNCH[..6], CrashStates()[..7];
    CrashStart();
    CrashLogout();
    RunOf(TWO_HEADS, es, ss);
  }
}

/**
 * When sessions and servers start, and how long a server may take: a session is timed
 * from its own fork, and every phase of a launch has its full time.
 */
module LifecycleStarts {
  import opened Wrappers
  import opened Displays
  import opened Lifecycle
  import opened LifecycleInv
  import LifecycleLists
  import opened LifecycleRuns

  // ----- Sessions -----

  /** The event gives this display a session that it did not have before. */
  predicate StartsSession(s: Daemon, e: Event, id: nat) {
    var r := After(s, e, id);
    Has(s.ds, id) && r.Some? && r.value.pid != NONE && r.value.pid != Get(s.ds, id).pid
  }

  /** It waits for a session and needs no server first. */
  predicate CanStart(d: Display) {
    d.status == NotRunning && (d.info.location == Foreign || d.serverPid != NONE)
  }

  predicate Starts(d: Display, e: Event) {
    ForkOf(e) != NONE && ((e.Kick? && CanStart(d)) || e.ServerReady?)
  }

  predicate StartOk(d: Display, r: Option<Display>, e: Event, now: int) {
    r.Some? ==>
      && (r.value.pid != NONE && r.value.pid != d.pid <==> Starts(d, e))
      && (Starts(d, e) ==> r.value.pid == ForkOf(e) && r.value.lastStart == now && r.value.status == Running)
      && (!Starts(d, e) ==> r.value.lastStart == d.lastStart)
  }

  lemma StartKick(f: Focus, g: Globals, e: Event)
    requires e.Kick? && FocusOk(f) && SlotIdle(f) && !f.gone && Aimed(f, g, e)
    requires e.fork != NONE ==> f.d.pid != e.fork && f.d.serverPid != e.fork
    ensures StartOk(f.d, Left(Act(f, g, e)), e, g.now)
  {}

  predicate SessionOver(d: Display, d': Display) {
    d'.pid == NONE && d'.lastStart == d.lastStart && d'.status !in {Running, Raiser}
  }

  /** A display whose session has ended does not run. */
  lemma ExitLeaves(f: Focus, g: Globals, end: EndState, cmd: ServerCmd, fork: int)
    requires f.d.pid == NONE
    ensures var r := ExitDisplay(f, g, end, cmd, fork); r.gone || SessionOver(f.d, r.d)
  {}

  lemma SessionLeaves(f: Focus, g: Globals, exit: Exit, fork: int)
    ensures var r := ReapSession(f, g, exit, fork); r.gone || SessionOver(f.d, r.d)
  {
    hide ExitDisplay;
    forall end, cmd { ExitLeaves(f.(d := f.d.(pid := NONE)), g, end, cmd, fork); }
  }

  lemma StartReap(f: Focus, g: Globals, e: Event)
    requires e.Reap? && FocusOk(f) && SlotIdle(f) && !f.gone && Aimed(f, g, e)
    ensures StartOk(f.d, Left(Act(f, g, e)), e, g.now)
  {
    SessionLeaves(f, g, e.exit, e.fork);
    hide ReapSession;
  }

  lemma StartAct(f: Focus, g: Globals, e: Event)
    requires FocusOk(f) && SlotIdle(f) && !f.gone && Aimed(f, g, e)
    requires ForkOf(e) != NONE ==> f.d.pid != ForkOf(e) && f.d.serverPid != ForkOf(e)
    ensures StartOk(f.d, Left(Act(f, g, e)), e, g.now)
  {
    if e.Kick? { StartKick(f, g, e); } else if e.Reap? { StartReap(f, g, e); }
  }

  /**
   * A session starts exactly if its process can be forked and the display has waited
   * for it without needing a server, or its server has got ready.
   */
  lemma StartsExactly(s: Daemon, e: Event, id: nat)
    requires Inv(s) && Possible(s, e) && After(s, e, id).Some? && Has(s.ds, id)
    ensures StartsSession(s, e, id) <==>
      AimedAt(s, e, id) && Starts(Get(s.ds, id), e)
    ensures StartsSession(s, e, id) ==>
      After(s, e, id).value.pid == ForkOf(e) && After(s, e, id).value.status == Running
  {
    StartTimes(s, e, id);
  }

  /** And the display records the time of that, and no other time. */
  lemma StartTimes(s: Daemon, e: Event, id: nat)
    requires Inv(s) && Possible(s, e) && After(s, e, id).Some? && Has(s.ds, id)
    ensures After(s, e, id).value.lastStart == if StartsSession(s, e, id) then s.now else Get(s.ds, id).lastStart
    ensures StartsSession(s, e, id) <==>
      AimedAt(s, e, id) && Starts(Get(s.ds, id), e)
    ensures StartsSession(s, e, id) ==>
      After(s, e, id).value.pid == ForkOf(e) && After(s, e, id).value.status == Running
  {
    if AimedAt(s, e, id) {
      AfterTarget(s, e, id);
      StartAct(FocusOn(s, id), GlobalsOf(s), e);
    } else if e.Stoppen? || e.Admit? {
      AfterStop(s, e, id);
    } else {
      AfterOther(s, e, id);
    }
  }

  /** The time of the event that forked the current session; `since` is for one that runs from the beginning. */
  function Since(s: Daemon, es: seq<Event>, id: nat, since: int): int
    decreases |es|
  {
    if es == [] then since
    else Since(Step(s, es[0]), es[1..], id, if StartsSession(s, es[0], id) then s.now else since)
  }

  /** Over every run, a session is timed from the event that forked it. */
  lemma {:induction false} TimedFromItsFork(s: Daemon, es: seq<Event>, id: nat, since: int)
    requires Inv(s) && PossibleRun(s, es) && TameRun(s, es) && id < s.nextId
    requires Has(s.ds, id) && Get(s.ds, id).pid != NONE ==> Get(s.ds, id).lastStart == since
    ensures var ds := Run(s, es).ds;
      Has(ds, id) && Get(ds, id).pid != NONE ==> Get(ds, id).lastStart == Since(s, es, id, since)
    decreases |es|
  {
    if es != [] {
      var e, s' := es[0], Step(s, es[0]);
      StepInv(s, e);
      IdsStay(s, e, id);
      if Has(s'.ds, id) { StartTimes(s, e, id); }
      TimedFromItsFork(s', es[1..], id, if StartsSession(s, e, id) then s.now else since);
    }
  }

  lemma IdsStay(s: Daemon, e: Event, id: nat)
    requires Inv(s) && Possible(s, e) && id < s.nextId
    ensures id < Step(s, e).nextId && (Has(Step(s, e).ds, id) ==> Has(s.ds, id))
  {
    LifecycleLists.InvIsListed(s);
    LifecycleLists.StepListed(s, e);
  }

  // ----- Servers -----

  predicate NeedsServer(d: Display) {
    d.serverStatus == Awaiting || (d.status == NotRunning && d.info.location == Local && d.serverPid == NONE)
  }

  /** The event gives this display a server that it did not have before. */
  predicate StartsServer(s: Daemon, e: Event, id: nat) {
    var r := After(s, e, id);
    Has(s.ds, id) && r.Some? && r.value.serverPid != NONE && r.value.serverPid != Get(s.ds, id).serverPid
  }

  /** The display takes the free launch slot, a launch that has paused goes on, or a remote login starts. */
  predicate Forks(d: Display, starting: Option<nat>, e: Event, r: Display) {
    && ForkOf(e) != NONE
    && (|| (e.Kick? && starting.None? && NeedsServer(d))
        || (e.ServerTimer? && d.serverStatus == Pausing)
        || (e.Reap? && r.status == RemoteLogin && (d.status != RemoteLogin)))
  }

  predicate ServerOk(d: Display, starting: Option<nat>, e: Event, f': Focus) {
    !f'.gone ==>
      && (f'.d.serverPid != NONE && f'.d.serverPid != d.serverPid <==> Forks(d, starting, e, f'.d))
      && (Forks(d, starting, e, f'.d) ==> f'.d.serverPid == ForkOf(e))
  }

  lemma ServerKick(f: Focus, g: Globals, e: Event)
    requires e.Kick? && FocusOk(f) && SlotIdle(f) && !f.gone && Aimed(f, g, e)
    requires e.fork != NONE ==> f.d.serverPid != e.fork
    ensures ServerOk(f.d, f.starting, e, Act(f, g, e))
  {}

  lemma ServerReap(f: Focus, g: Globals, e: Event)
    requires e.Reap? && FocusOk(f) && SlotIdle(f) && !f.gone && Aimed(f, g, e)
    requires e.fork != NONE ==> f.d.serverPid != e.fork
    requires f.d.pid != NONE ==> f.d.pid != f.d.serverPid
    ensures ServerOk(f.d, f.starting, e, Act(f, g, e))
  {
    if f.d.pid == e.pid { ServerSession(f, g, e); }
  }

  lemma ServerSession(f: Focus, g: Globals, e: Event)
    requires e.Reap? && FocusOk(f) && SlotIdle(f) && !f.gone && Aimed(f, g, e) && f.d.pid == e.pid
    requires e.fork != NONE ==> f.d.serverPid != e.fork
    ensures ServerOk(f.d, f.starting, e, ReapSession(f, g, e.exit, e.fork))
  {}

  lemma ServerAct(f: Focus, g: Globals, e: Event)
    requires FocusOk(f) && SlotIdle(f) && !f.gone && Aimed(f, g, e)
    requires ForkOf(e) != NONE ==> f.d.serverPid != ForkOf(e)
    requires f.d.pid != NONE ==> f.d.pid != f.d.serverPid
    ensures ServerOk(f.d, f.starting, e, Act(f, g, e))
  {
    if e.Kick? { ServerKick(f, g, e); } else if e.Reap? { ServerReap(f, g, e); }
  }

  /** A server starts in these cases only, and is recorded. */
  lemma ServerStartsExactly(s: Daemon, e: Event, id: nat)
    requires Inv(s) && Possible(s, e) && After(s, e, id).Some? && Has(s.ds, id)
    ensures var d, r := Get(s.ds, id), After(s, e, id).value;
      && (StartsServer(s, e, id) <==> AimedAt(s, e, id) && Forks(d, s.starting, e, r))
      && (StartsServer(s, e, id) ==> r.serverPid == ForkOf(e))
  {
    if AimedAt(s, e, id) {
      AfterTarget(s, e, id);
      ServerAct(FocusOn(s, id), GlobalsOf(s), e);
    } else if e.Stoppen? || e.Admit? {
      AfterStop(s, e, id);
    } else {
      AfterOther(s, e, id);
    }
  }

  /** How long a phase may take. */
  function Allowed(d: Display): int {
    match d.serverStatus
    case Killed => 10
    case Pausing => d.info.cfg.openDelay
    case _ => d.info.cfg.serverTimeout
  }

  /** The event is one by which a launch goes on. */
  predicate Advances(s: Daemon, e: Event, id: nat) {
    AimedAt(s, e, id) && GoesOn(Get(s.ds, id), s.starting, e)
  }

  /** The phase after that event, if the launch is not given up. */
  function NextPhase(d: Display, e: Event): ServerStatus {
    if e.Reap? || (e.ServerTimer? && d.serverStatus == Killed) then Pausing
    else if e.ServerTimer? && d.serverStatus == Starting then Terminated
    else if e.ServerTimer? && d.serverStatus == Terminated then Killed
    else if ForkOf(e) == NONE then Pausing
    else Starting
  }

  predicate GoesOn(d: Display, starting: Option<nat>, e: Event) {
    e.ServerTimer? || (e.Reap? && d.serverPid == e.pid) || (e.Kick? && starting.None? && NeedsServer(d))
  }

  predicate PhaseOk(f: Focus, e: Event, f': Focus, now: int) {
    !f'.gone && Launching(f'.d) ==>
      if GoesOn(f.d, f.starting, e) then
        f'.d.serverStatus == NextPhase(f.d, e) && f'.timer == Some(now + Allowed(f'.d))
      else f'.d.serverStatus == f.d.serverStatus && f'.timer == f.timer
  }

  lemma PhaseKick(f: Focus, g: Globals, e: Event)
    requires e.Kick? && FocusOk(f) && SlotIdle(f) && !f.gone && Aimed(f, g, e)
    ensures PhaseOk(f, e, Act(f, g, e), g.now)
  {}

  lemma PhaseReap(f: Focus, g: Globals, e: Event)
    requires e.Reap? && FocusOk(f) && SlotIdle(f) && !f.gone && Aimed(f, g, e)
    requires f.d.pid != f.d.serverPid
    ensures PhaseOk(f, e, Act(f, g, e), g.now)
  {}

  lemma PhaseAct(f: Focus, g: Globals, e: Event)
    requires FocusOk(f) && SlotIdle(f) && !f.gone && Aimed(f, g, e)
    requires e.Reap? ==> f.d.pid != f.d.serverPid
    ensures PhaseOk(f, e, Act(f, g, e), g.now)
  {
    if e.Kick? { PhaseKick(f, g, e); } else if e.Reap? { PhaseReap(f, g, e); }
  }

  lemma StopIfTimer(s: Daemon, x: nat, force: bool, id: nat)
    requires Inv(s) && Has(s.ds, id) && Launching(Get(s.ds, id))
    requires var s' := StopIf(s, x, force); Has(s'.ds, id) && Launching(Get(s'.ds, id))
    ensures StopIf(s, x, force).timer == s.timer
  {
    StopIfFacts(s, x, force);
    hide Inv, Launching;
    if x == id { StopNotLaunching(s, id); }
    SlotOf(s, id);
  }

  lemma StopNotLaunching(s: Daemon, id: nat)
    requires Inv(s) && Has(s.ds, id) && Launching(Get(s.ds, id))
    ensures var s' := PutBack(s, IndexOf(s.ds, id), StopDisplay(FocusOn(s, id)));
      Has(s'.ds, id) ==> !Launching(Get(s'.ds, id))
  {
    var k := IndexOf(s.ds, id);
    FocusAtOk(s, k);
    StopAtFacts(s, k, true);
  }

  /** A launching display holds the slot. */
  lemma SlotOf(s: Daemon, id: nat)
    requires Inv(s) && Has(s.ds, id) && Launching(Get(s.ds, id))
    ensures s.starting == Some(id)
  {
    var k := IndexOf(s.ds, id);
    assert s.ds[k].Id() == id;
  }

  lemma {:induction false} StopEachTimer(s: Daemon, ids: seq<nat>, force: bool, id: nat)
    requires Inv(s) && Has(s.ds, id) && Launching(Get(s.ds, id))
    requires var s' := StopEach(s, ids, force); Has(s'.ds, id) && Launching(Get(s'.ds, id))
    ensures StopEach(s, ids, force).timer == s.timer
    decreases |ids|
  {
    if ids != [] {
      var s1 := StopIf(s, ids[0], force);
      StopIfFacts(s, ids[0], force);
      StopEachIds(s1, ids[1..], force, id);
      hide StopIf, Inv;
      StopIfTimer(s, ids[0], force, id);
      StopEachTimer(s1, ids[1..], force, id);
    }
  }

  lemma NamedIsStopIf(s: Daemon, name: string)
    requires UniqueIds(s.ds) && FindByName(s.ds, name).Some?
    ensures StopNamed(s, name) == StopIf(s, s.ds[FindByName(s.ds, name).value].Id(), true)
  {
    IndexOfUnique(s.ds, FindByName(s.ds, name).value);
  }

  lemma AdmitTimer(s: Daemon, info: Info, id: nat)
    requires Inv(s) && Has(s.ds, id) && Launching(Get(s.ds, id))
    requires var ds := StopNamed(s, info.name).ds; Has(ds, id) && Launching(Get(ds, id))
    ensures NewDisplay(StopNamed(s, info.name), info).timer == s.timer
  {
    var r := FindByName(s.ds, info.name);
    hide StopNamed, StopIf, Launching;
    if r.Some? {
      NamedIsStopIf(s, info.name);
      StopIfTimer(s, s.ds[r.value].Id(), true, id);
    } else {
      NoneNamed(s, info.name);
    }
  }

  lemma NoneNamed(s: Daemon, name: string)
    requires FindByName(s.ds, name).None?
    ensures StopNamed(s, name) == s
  {}

  /** What is done to other displays leaves the timer of a launch alone. */
  lemma TimerKept(s: Daemon, e: Event, id: nat)
    requires Inv(s) && Possible(s, e) && Has(s.ds, id) && Launching(Get(s.ds, id)) && !AimedAt(s, e, id)
    requires After(s, e, id).Some? && Launching(After(s, e, id).value)
    ensures Step(s, e).timer == s.timer
  {
    SlotOf(s, id);
    if e.Stoppen? {
      StopEachTimer(s, Ids(s.ds), e.force, id);
    } else if e.Admit? {
      AdmitKept(s, e, id);
    } else if Target(s, e).Some? {
      var k, f' := TargetBecomes(s, e);
      hide Act, Inv, FocusOk, Aimed;
    } else {
      SlotHasTimer(s, id);
    }
  }

  lemma SlotHasTimer(s: Daemon, id: nat)
    requires Inv(s) && Has(s.ds, id) && s.starting == Some(id)
    ensures Target(s, ServerTimer(NONE)).None? ==> !TimerDue(s)
  {}

  lemma AdmitKept(s: Daemon, e: Event, id: nat)
    requires Inv(s) && Possible(s, e) && e.Admit? && Has(s.ds, id) && Launching(Get(s.ds, id))
    requires After(s, e, id).Some? && Launching(After(s, e, id).value)
    ensures Step(s, e).timer == s.timer
  {
    hide Inv, StopNamed, NewDisplay, Launching, Possible;
    if !s.stopping {
      var s1 := StopNamed(s, e.info.name);
      StopNamedOk(s, e.info.name);
      NewDisplayInv(s1, e.info);
      InvIds(s);
      InvIds(s1);
      InvIds(NewDisplay(s1, e.info));
      NewDisplayGets(s1, e.info);
      AdmitTimer(s, e.info, id);
    }
  }

  /**
   * A launch goes from phase to phase in order: starting, terminated, killed, pausing,
   * and starting again. It does so only when its timer has run out, its server has
   * died or it begins, and then it has the full time of the new phase.
   */
  lemma PhasesExactly(s: Daemon, e: Event, id: nat)
    requires Inv(s) && Possible(s, e) && Has(s.ds, id)
    requires After(s, e, id).Some? && Launching(After(s, e, id).value) && !e.XConnOk?
    ensures var d, d' := Get(s.ds, id), After(s, e, id).value;
      if Advances(s, e, id) then
        d'.serverStatus == NextPhase(d, e) && Step(s, e).timer == Some(s.now + Allowed(d'))
      else
        d'.serverStatus == d.serverStatus && Step(s, e).timer == s.timer
  {
    if AimedAt(s, e, id) {
      AfterTarget(s, e, id);
      PhaseAct(FocusOn(s, id), GlobalsOf(s), e);
    } else {
      if e.Stoppen? || e.Admit? { AfterStop(s, e, id); } else { AfterOther(s, e, id); }
      hide Inv, Step, Possible;
      TimerKept(s, e, id);
    }
  }

  // ----- The launch slot -----

  predicate SlotTaken(f: Focus, e: Event, r: Focus) {
    !r.gone && r.d.status in {Running, Raiser} ==>
      r.starting == if e.Kick? && f.starting.None? && NeedsServer(f.d) then Some(f.d.Id()) else f.starting
  }

  lemma SlotKick(f: Focus, g: Globals, e: Event)
    requires FocusOk(f) && SlotIdle(f) && !f.gone && Aimed(f, g, e) && e.Kick?
    ensures SlotTaken(f, e, Act(f, g, e))
  {}

  lemma SlotReap(f: Focus, g: Globals, e: Event)
    requires FocusOk(f) && SlotIdle(f) && !f.gone && Aimed(f, g, e) && e.Reap?
    ensures SlotTaken(f, e, Act(f, g, e))
  {
    SessionLeaves(f, g, e.exit, e.fork);
    hide ReapSession;
  }

  lemma SlotAct(f: Focus, g: Globals, e: Event)
    requires FocusOk(f) && SlotIdle(f) && !f.gone && Aimed(f, g, e)
    ensures SlotTaken(f, e, Act(f, g, e))
  {
    if e.Kick? { SlotKick(f, g, e); } else if e.Reap? { SlotReap(f, g, e); }
  }

  /**
   * A display takes the free slot when it is started and needs a server. While it runs
   * it keeps the slot, also when its server is ready, until a D_XConnOk report.
   */
  lemma SlotExactly(s: Daemon, e: Event, id: nat)
    requires Inv(s) && Possible(s, e) && AimedAt(s, e, id)
    requires After(s, e, id).Some? && After(s, e, id).value.status in {Running, Raiser}
    ensures Step(s, e).starting ==
      if e.Kick? && s.starting.None? && NeedsServer(Get(s.ds, id)) then Some(id) else s.starting
  {
    AfterTarget(s, e, id);
    SlotAct(FocusOn(s, id), GlobalsOf(s), e);
    hide Act, Inv, FocusOk, Aimed;
  }

  // ----- The last attempt -----

  /** An event for this display, by which an attempt to start its server comes to nothing. */
  predicate AttemptFails(d: Display, starting: Option<nat>, e: Event) {
    match e
    case Kick(_, fork) =>                           // it cannot be forked
      fork == NONE && starting.None? && NeedsServer(d)
    case ServerTimer(fork) =>                       // it survived SIGKILL, or the next one cannot be forked
      d.serverStatus == Killed || (d.serverStatus == Pausing && fork == NONE)
    case Reap(pid, _, _) => d.serverPid == pid && Launching(d)
    case _ => false
  }

  /** How many attempts this launch has had then. */
  function Attempts(d: Display, e: Event): nat {
    if e.Kick? then 1 else if e.ServerTimer? && d.serverStatus == Pausing then d.startTries + 1 else d.startTries
  }

  predicate LastAttempt(d: Display, starting: Option<nat>, e: Event) {
    AttemptFails(d, starting, e) && 0 < d.info.cfg.serverAttempts <= Attempts(d, e)
  }
}

/**
 * What the invariant buys over whole runs: which children the daemon may lose
 * sight of, that a forced shutdown drains, that a server launch ends, and exactly
 * when a display report may free the launch slot.
 */
module LifecycleRuns {
  import opened Wrappers
  import opened Displays
  import opened Lifecycle
  import opened LifecycleInv
  import opened LifecycleLists

  // ----- One step, seen from the displays -----

  /** An admitted display comes first; of the others, only the head-most of its name is stopped. */
  lemma AdmitFacts(s: Daemon, info: Info, id: nat)
    requires Inv(s) && !s.stopping
    ensures var s' := Step(s, Admit(info));
      && s'.nextId == s.nextId + 1
      && (Has(s'.ds, id) ==> Has(s.ds, id) || id == s.nextId)
      && (Has(s.ds, id) && !Has(s'.ds, id) ==> Procs(Get(s.ds, id)) == 0)
      && (Has(s.ds, id) && Has(s'.ds, id) ==>
            Stopped(Get(s.ds, id), Get(s'.ds, id), Get(s.ds, id).info.name == info.name, false))
  {
    hide Inv;
    var s1 := StopNamed(s, info.name);
    StopNamedOk(s, info.name);
    StopNamedFacts(s, info.name, id);
    AdmitInv(s, info);
    InvIds(s);
    InvIds(s1);
    InvIds(NewDisplay(s1, info));
    NewDisplayGets(s1, info);
  }

  lemma InvIds(s: Daemon)
    requires Inv(s)
    ensures UniqueIds(s.ds) && forall x: nat :: Has(s.ds, x) ==> x < s.nextId
  {}

  lemma StopNamedFacts(s: Daemon, name: string, id: nat)
    requires Inv(s)
    ensures var ds' := StopNamed(s, name).ds;
      && (Has(ds', id) ==> Has(s.ds, id))
      && (Has(s.ds, id) && !Has(ds', id) ==> Procs(Get(s.ds, id)) == 0)
      && (Has(ds', id) ==> Stopped(Get(s.ds, id), Get(ds', id), Get(s.ds, id).info.name == name, false))
  {
    var r := FindByName(s.ds, name);
    if r.Some? {
      var k := r.value;
      FocusAtOk(s, k);
      StopAtFacts(s, k, false);
      ByPosition(s.ds, k);
    }
  }

  /** What the target becomes. */
  lemma TargetBecomes(s: Daemon, e: Event) returns (k: nat, f': Focus)
    requires Inv(s) && Possible(s, e) && Target(s, e).Some?
    ensures Target(s, e) == Some(k) && k < |s.ds| && IndexOf(s.ds, s.ds[k].Id()) == k
    ensures f' == Act(FocusAt(s, k), GlobalsOf(s), e) && Step(s, e) == PutBack(s, k, f')
    ensures FocusOk(FocusAt(s, k)) && SlotIdle(FocusAt(s, k)) && Aimed(FocusAt(s, k), GlobalsOf(s), e)
    ensures Moved(FocusAt(s, k), f', ForkOf(e)) && FocusOk(f')
    ensures var ds' := Step(s, e).ds; var id := s.ds[k].Id();
      && UniqueIds(ds')
      && (forall x :: Has(ds', x) <==> Has(s.ds, x) && !(f'.gone && x == id))
      && (forall x :: Has(ds', x) && x != id ==> Get(ds', x) == Get(s.ds, x))
      && (!f'.gone ==> Has(ds', id) && Get(ds', id) == f'.d)
  {
    k := Target(s, e).value;
    f' := Act(FocusAt(s, k), GlobalsOf(s), e);
    FocusAtOk(s, k);
    TargetAimed(s, e);
    ActOk(FocusAt(s, k), GlobalsOf(s), e);
    PutBackAt(s, k, f');
    IndexOfUnique(s.ds, k);
  }

  lemma {:induction false} StopEachIds(s: Daemon, ids: seq<nat>, force: bool, id: nat)
    requires Inv(s)
    ensures var s' := StopEach(s, ids, force);
      && (Has(s'.ds, id) ==> Has(s.ds, id))
      && (Has(s'.ds, id) ==> Stopped(Get(s.ds, id), Get(s'.ds, id), true, false))
    decreases |ids|
  {
    if ids != [] {
      StopIfFacts(s, ids[0], force);
      StopEachIds(StopIf(s, ids[0], force), ids[1..], force, id);
    }
  }

  /** The record with this id after an event, if it is still listed. */
  function After(s: Daemon, e: Event, id: nat): Option<Display> {
    var ds := Step(s, e).ds;
    if Has(ds, id) then Some(Get(ds, id)) else None
  }

  function Left(f: Focus): Option<Display> {
    if f.gone then None else Some(f.d)
  }

  /** The event is aimed at this display. */
  predicate AimedAt(s: Daemon, e: Event, id: nat) {
    Has(s.ds, id) && Target(s, e) == At(s.ds, id)
  }

  function FocusOn(s: Daemon, id: nat): Focus
    requires Has(s.ds, id)
  {
    FocusAt(s, IndexOf(s.ds, id))
  }

  lemma AfterTarget(s: Daemon, e: Event, id: nat)
    requires Inv(s) && Possible(s, e) && AimedAt(s, e, id)
    ensures var f := FocusOn(s, id); var f' := Act(f, GlobalsOf(s), e);
      && f.d == Get(s.ds, id) && After(s, e, id) == Left(f')
      && Step(s, e).starting == f'.starting && Step(s, e).timer == f'.timer
      && FocusOk(f) && SlotIdle(f) && Aimed(f, GlobalsOf(s), e) && FocusOk(f')
      && (ForkOf(e) != NONE ==> f.d.pid != ForkOf(e) && f.d.serverPid != ForkOf(e))
      && (f.d.pid != NONE ==> f.d.pid != f.d.serverPid)
  {
    var k, f' := TargetBecomes(s, e);
    hide Act, HeadMost, SlotOk, FocusOk, Moved, Aimed;
  }

  lemma AfterOther(s: Daemon, e: Event, id: nat)
    requires Inv(s) && Possible(s, e) && Has(s.ds, id) && !AimedAt(s, e, id) && !e.Stoppen? && !e.Admit?
    ensures After(s, e, id) == Some(Get(s.ds, id))
  {
    InvIsListed(s);
    OthersUntouched(s, e, id);
  }

  /** stoppen and an admission: a display is stopped or stays as it is. */
  lemma AfterStop(s: Daemon, e: Event, id: nat)
    requires Inv(s) && Possible(s, e) && Has(s.ds, id) && (e.Stoppen? || e.Admit?)
    ensures var r, d := After(s, e, id), Get(s.ds, id);
      if r.None? then Procs(d) == 0 else Stopped(d, r.value, true, false)
  {
    if e.Stoppen? {
      StopEachIds(s, Ids(s.ds), e.force, id);
      if Procs(Get(s.ds, id)) > 0 { StopEachKept(s, Ids(s.ds), e.force, id); }
    } else if !s.stopping {
      AdmitFacts(s, e.info, id);
    }
  }

  lemma {:induction false} StopEachKept(s: Daemon, ids: seq<nat>, force: bool, id: nat)
    requires Inv(s) && Has(s.ds, id) && Procs(Get(s.ds, id)) > 0
    ensures Has(StopEach(s, ids, force).ds, id)
    decreases |ids|
  {
    if ids != [] {
      StopIfFacts(s, ids[0], force);
      StopEachKept(StopIf(s, ids[0], force), ids[1..], force, id);
    }
  }

  // ----- Which children the daemon keeps track of -----

  predicate Owns(d: Display, pid: int) {
    pid != NONE && (d.pid == pid || d.serverPid == pid)
  }

  /** A retry forks over the pid of a server that would not die. */
  predicate Overwrites(f: Focus, e: Event, pid: int) {
    e.ServerTimer? && f.d.serverStatus == Pausing && f.d.serverPid == pid
  }

  lemma ExitKeepsServer(f: Focus, g: Globals, exit: Exit, fork: int)
    requires !f.gone && f.d.serverPid != NONE
    ensures !ReapSession(f, g, exit, fork).gone && ReapSession(f, g, exit, fork).d.serverPid == f.d.serverPid
    ensures ReapSession(f, g, exit, fork).d.pid == NONE
  {
    var f1 := f.(d := f.d.(pid := NONE));
    forall end, cmd
      ensures var f' := ExitDisplay(f1, g, end, cmd, fork);
              !f'.gone && f'.d.serverPid == f.d.serverPid && f'.d.pid == NONE
    {
      ExitKeepsServerOf(f1, g, end, cmd, fork);
    }
  }

  lemma ExitKeepsServerOf(f: Focus, g: Globals, end: EndState, cmd: ServerCmd, fork: int)
    requires !f.gone && f.d.serverPid != NONE
    ensures var f' := ExitDisplay(f, g, end, cmd, fork);
      !f'.gone && f'.d.serverPid == f.d.serverPid && f'.d.pid == f.d.pid
  {}

  lemma ReapServerKeepsSession(f: Focus, g: Globals, fork: int)
    requires FocusOk(f) && !f.gone && f.d.pid != NONE
    ensures !ReapServer(f, g, fork).gone && ReapServer(f, g, fork).d.pid == f.d.pid
  {}

  lemma KickKeepsChildren(f: Focus, g: Globals, fork: int, pid: int)
    requires FocusOk(f) && !f.gone && !g.stopping && Owns(f.d, pid)
    ensures !KickDisplay(f, g, fork).gone && Owns(KickDisplay(f, g, fork).d, pid)
  {}

  lemma TimeoutKeepsChildren(f: Focus, g: Globals, fork: int, pid: int)
    requires FocusOk(f) && !f.gone && f.starting == Some(f.d.Id()) && f.timer.Some?
    requires Owns(f.d, pid) && fork != pid
    ensures var f' := StartServerTimeout(f.(timer := None), g, fork);
      f'.gone || !Owns(f'.d, pid) <==> f.d.serverStatus == Pausing && f.d.serverPid == pid
  {}

  lemma ActKeepsChildren(f: Focus, g: Globals, e: Event, pid: int)
    requires FocusOk(f) && SlotIdle(f) && !f.gone && Aimed(f, g, e)
    requires Owns(f.d, pid) && ForkOf(e) != pid && !(e.Reap? && e.pid == pid)
    ensures var f' := Act(f, g, e); f'.gone || !Owns(f'.d, pid) <==> Overwrites(f, e, pid)
  {
    match e {
      case Kick(_, fork) => KickKeepsChildren(f, g, fork, pid);
      case ServerTimer(fork) => TimeoutKeepsChildren(f, g, fork, pid);
      case Reap(p, exit, fork) =>
        if f.d.pid == p { ExitKeepsServer(f, g, exit, fork); } else { ReapServerKeepsSession(f, g, fork); }
      case _ =>
    }
  }

  lemma {:induction false} StopEachKeepsChildren(s: Daemon, ids: seq<nat>, force: bool, id: nat, pid: int)
    requires Inv(s) && Has(s.ds, id) && Owns(Get(s.ds, id), pid)
    ensures var ds' := StopEach(s, ids, force).ds; Has(ds', id) && Owns(Get(ds', id), pid)
    decreases |ids|
  {
    if ids != [] {
      StopIfFacts(s, ids[0], force);
      StopEachKeepsChildren(StopIf(s, ids[0], force), ids[1..], force, id, pid);
    }
  }

  /**
   * A child that does not end is lost from its display, and the display perhaps
   * from the list, in one case only: the retry after a server that survived
   * SIGKILL. In every other step the display stays and still records the child.
   */
  lemma ChildLostExactly(s: Daemon, e: Event, id: nat, pid: int)
    requires Inv(s) && Possible(s, e) && Has(s.ds, id) && Owns(Get(s.ds, id), pid)
    requires !(e.Reap? && e.pid == pid)
    ensures !(Has(Step(s, e).ds, id) && Owns(Get(Step(s, e).ds, id), pid)) <==>
            e.ServerTimer? && TimerDue(s) && s.starting == Some(id) &&
            Get(s.ds, id).serverStatus == Pausing && Get(s.ds, id).serverPid == pid
  {
    var i := IndexOf(s.ds, id);
    if e.Stoppen? {
      StopEachKeepsChildren(s, Ids(s.ds), e.force, id, pid);
    } else if e.Admit? {
      if !s.stopping { AdmitFacts(s, e.info, id); }
    } else if Target(s, e) != Some(i) {
      InvIsListed(s);
      OthersUntouched(s, e, id);
    } else {
      var k, f' := TargetBecomes(s, e);
      ActKeepsChildren(FocusAt(s, k), GlobalsOf(s), e, pid);
    }
  }

  /** The last attempt to start the server of a display fails, on top of a server that would not die. */
  predicate LastAttemptFails(d: Display, e: Event, pid: int) {
    && e.ServerTimer? && e.fork == NONE && d.serverStatus == Pausing && d.serverPid == pid
    && d.info.cfg.serverAttempts > 0 && d.startTries + 1 >= d.info.cfg.serverAttempts
  }

  lemma TimeoutRemovesExactly(f: Focus, g: Globals, fork: int)
    requires FocusOk(f) && !f.gone && f.starting == Some(f.d.Id()) && f.timer.Some?
    requires f.d.serverStatus == Pausing
    ensures StartServerTimeout(f.(timer := None), g, fork).gone <==>
      LastAttemptFails(f.d, ServerTimer(fork), f.d.serverPid)
  {}

  /**
   * A display with a child that still runs leaves the list in one case only: a
   * server survived SIGKILL, and the fork of the last attempt after it fails.
   */
  lemma LeavesExactly(s: Daemon, e: Event, id: nat, pid: int)
    requires Inv(s) && Possible(s, e) && Has(s.ds, id) && Owns(Get(s.ds, id), pid)
    requires !(e.Reap? && e.pid == pid)
    ensures !Has(Step(s, e).ds, id) <==>
            TimerDue(s) && s.starting == Some(id) && LastAttemptFails(Get(s.ds, id), e, pid)
  {
    ChildLostExactly(s, e, id, pid);
    if e.ServerTimer? && TimerDue(s) && s.starting == Some(id) && Get(s.ds, id).serverStatus == Pausing {
      var k, f' := TargetBecomes(s, e);
      TimeoutRemovesExactly(FocusAt(s, k), GlobalsOf(s), e.fork);
    }
  }

  lemma ReapSessionDropsPid(f: Focus, g: Globals, exit: Exit, fork: int)
    requires FocusOk(f) && SlotIdle(f) && !f.gone && f.d.pid != NONE && f.d.pid != f.d.serverPid
    requires fork != f.d.pid && (fork != NONE ==> fork != f.d.serverPid)
    ensures ReapSession(f, g, exit, fork).gone || !Owns(ReapSession(f, g, exit, fork).d, f.d.pid)
  {
    var f1 := f.(d := f.d.(pid := NONE));
    forall end, cmd ensures Moved(f1, ExitDisplay(f1, g, end, cmd, fork), fork) {
      ExitDisplayOk(f1, g, end, cmd, fork);
    }
  }

  lemma ReapServerDropsPid(f: Focus, g: Globals, fork: int)
    requires f.d.serverPid != NONE && f.d.pid != f.d.serverPid && fork != f.d.serverPid
    ensures !Owns(ReapServer(f, g, fork).d, f.d.serverPid)
  {}

  /** A collected child is recorded nowhere any more. */
  lemma ReapedIsForgotten(s: Daemon, pid: int, exit: Exit, fork: int, id: nat)
    requires Inv(s) && Possible(s, Reap(pid, exit, fork)) && fork != pid
    ensures var ds' := Step(s, Reap(pid, exit, fork)).ds; Has(ds', id) ==> !Owns(Get(ds', id), pid)
  {
    var e := Reap(pid, exit, fork);
    if Target(s, e).Some? {
      var k, f' := TargetBecomes(s, e);
      if s.ds[k].pid == pid { ReapSessionDropsPid(FocusAt(s, k), GlobalsOf(s), exit, fork); }
      else { ReapServerDropsPid(FocusAt(s, k), GlobalsOf(s), fork); }
      if Has(s.ds, id) && id != s.ds[k].Id() {
        var i := IndexOf(s.ds, id);
        assert i != k;
        assert !Owns(s.ds[i], pid);
      }
    }
  }

  /** The cases of startServerTimeout that are marked as impossible are: the timer runs out in a launch phase only. */
  lemma TimeoutInLaunchOnly(s: Daemon)
    requires Inv(s) && TimerDue(s)
    ensures LaunchInProgress(s)
    ensures Get(s.ds, s.starting.value).serverStatus in {Starting, Terminated, Killed, Pausing}
  {}

  /** Of the cases of reapChildren that are marked as impossible, this one is. */
  lemma ReservedHasNoServer(s: Daemon, pid: int)
    requires Inv(s) && pid != NONE && FindByServerPid(s.ds, pid).Some?
    ensures s.ds[FindByServerPid(s.ds, pid).value].status != Reserve
  {
    assert StatusOk(s.ds[FindByServerPid(s.ds, pid).value]);
  }

  // ----- Forced shutdown -----

  /** Can neither start a process nor be waited for in vain. */
  predicate Drained(d: Display) {
    Condemned(d) || (d.status == NotRunning && Procs(d) == 0)
  }

  ghost predicate Draining(s: Daemon) {
    && s.stopping && s.starting.None?
    && forall i :: 0 <= i < |s.ds| ==> Drained(s.ds[i])
  }

  lemma {:induction false} StopEachAll(s: Daemon, ids: seq<nat>)
    requires Inv(s)
    requires forall x :: Has(s.ds, x) && !Condemned(Get(s.ds, x)) ==> x in ids
    requires s.starting.Some? ==> s.starting.value in ids
    ensures var s' := StopEach(s, ids, true);
      && Inv(s') && s'.starting.None?
      && forall x :: Has(s'.ds, x) ==> Condemned(Get(s'.ds, x))
    decreases |ids|
  {
    if ids != [] {
      var s' := StopIf(s, ids[0], true);
      StopIfFacts(s, ids[0], true);
      forall x | x in ids && x != ids[0] ensures x in ids[1..] {}
      StopEachAll(s', ids[1..]);
    }
  }

  lemma AllOf(ds: seq<Display>)
    requires UniqueIds(ds) && forall x :: Has(ds, x) ==> Condemned(Get(ds, x))
    ensures forall i :: 0 <= i < |ds| ==> Condemned(ds[i])
  {
    forall i | 0 <= i < |ds| ensures Condemned(ds[i]) { ByPosition(ds, i); }
  }

  /** stoppen(True) condemns every display and frees the launch slot. */
  lemma ForcedStopCondemnsAll(s: Daemon)
    requires Inv(s)
    ensures var s' := Step(s, Stoppen(true));
      && Inv(s') && Draining(s') && s'.timer.None?
      && forall i :: 0 <= i < |s'.ds| ==> Condemned(s'.ds[i])
  {
    forall x | Has(s.ds, x) ensures x in Ids(s.ds) {
      assert Ids(s.ds)[IndexOf(s.ds, x)] == x;
    }
    StopEachAll(s, Ids(s.ds));
    StepInv(s, Stoppen(true));
    AllOf(Step(s, Stoppen(true)).ds);
  }

  lemma {:induction false} AllProcsSplit(ds: seq<Display>, k: nat)
    requires k < |ds|
    ensures AllProcs(ds) == AllProcs(ds[..k]) + Procs(ds[k]) + AllProcs(ds[k+1..])
  {
    if k == 0 {
      assert ds[..0] == [];
    } else {
      AllProcsSplit(ds[1..], k - 1);
      assert ds[1..][..k-1] == ds[..k][1..];
      assert ds[1..][k..] == ds[k+1..];
    }
  }

  lemma {:induction false} AllProcsConcat(a: seq<Display>, b: seq<Display>)
    ensures AllProcs(a + b) == AllProcs(a) + AllProcs(b)
  {
    if a == [] { assert a + b == b; }
    else {
      AllProcsConcat(a[1..], b);
      assert (a + b)[1..] == a[1..] + b;
    }
  }

  lemma AllProcsPutBack(s: Daemon, k: nat, f': Focus)
    requires k < |s.ds|
    ensures AllProcs(PutBack(s, k, f').ds) ==
            AllProcs(s.ds) - Procs(s.ds[k]) + (if f'.gone then 0 else Procs(f'.d))
  {
    AllProcsSplit(s.ds, k);
    var ds' := PutBack(s, k, f').ds;
    if f'.gone {
      AllProcsConcat(s.ds[..k], s.ds[k+1..]);
    } else {
      AllProcsSplit(ds', k);
      assert ds'[..k] == s.ds[..k] && ds'[k+1..] == s.ds[k+1..];
    }
  }

  /** The event collects a child the daemon knows of. */
  predicate Collects(s: Daemon, e: Event) {
    e.Reap? && Target(s, e).Some?
  }

  lemma DrainPutBack(s: Daemon, k: nat, f': Focus)
    requires Draining(s) && k < |s.ds| && f'.starting.None? && (f'.gone || Drained(f'.d))
    ensures Draining(PutBack(s, k, f'))
  {}

  lemma {:induction false} DrainStopEach(s: Daemon, ids: seq<nat>, force: bool)
    requires Inv(s) && Draining(s)
    ensures Draining(StopEach(s, ids, force)) && AllProcs(StopEach(s, ids, force).ds) == AllProcs(s.ds)
    decreases |ids|
  {
    if ids != [] {
      var k := IndexOf(s.ds, ids[0]);
      if k < |s.ds| {
        AllProcsPutBack(s, k, StopDisplay(FocusAt(s, k)));
        DrainPutBack(s, k, StopDisplay(FocusAt(s, k)));
      }
      StopIfFacts(s, ids[0], force);
      DrainStopEach(StopIf(s, ids[0], force), ids[1..], force);
    }
  }

  lemma DrainReap(f: Focus, g: Globals, exit: Exit, fork: int)
    requires !f.gone && f.starting.None? && Condemned(f.d) && f.d.pid != NONE
    ensures ReapSession(f, g, exit, fork) ==
            RStopDisplay(f.(d := f.d.(pid := NONE, userSess := NONE)), DsRemove, fork)
  {
    var f1 := f.(d := f.d.(pid := NONE));
    forall end, cmd
      ensures ExitDisplay(f1, g, end, cmd, fork) == RStopDisplay(f1.(d := f1.d.(userSess := NONE)), DsRemove, fork) {}
  }

  lemma DrainAct(f: Focus, g: Globals, e: Event)
    requires FocusOk(f) && SlotIdle(f) && !f.gone && Aimed(f, g, e) && f.starting.None? && g.stopping
    requires Drained(f.d) && (e.Reap? ==> f.d.pid != f.d.serverPid)
    ensures var f' := Act(f, g, e);
      && f'.starting.None? && (f'.gone || Drained(f'.d))
      && (if f'.gone then 0 else Procs(f'.d)) == Procs(f.d) - (if e.Reap? then 1 else 0)
  {
    if e.Reap? && f.d.pid == e.pid { DrainReap(f, g, e.exit, e.fork); }
  }

  lemma ReapedHasOnce(s: Daemon, e: Event)
    requires Inv(s) && Possible(s, e) && e.Reap? && Target(s, e).Some?
    ensures var d := s.ds[Target(s, e).value]; d.pid != d.serverPid
  {}

  lemma DrainTarget(s: Daemon, e: Event)
    requires Inv(s) && Draining(s) && Possible(s, e) && Target(s, e).Some?
    ensures Draining(Step(s, e))
    ensures AllProcs(Step(s, e).ds) == AllProcs(s.ds) - (if e.Reap? then 1 else 0)
  {
    var k, f' := TargetBecomes(s, e);
    hide Act, PutBack, Inv, Moved, FocusOk, Aimed, Possible, Step;
    if e.Reap? { ReapedHasOnce(s, e); }
    DrainAct(FocusAt(s, k), GlobalsOf(s), e);
    AllProcsPutBack(s, k, f');
    DrainPutBack(s, k, f');
  }

  /** While draining no step adds a process, and exactly the collected children go. */
  lemma DrainStep(s: Daemon, e: Event)
    requires Inv(s) && Draining(s) && Possible(s, e) && !e.CancelShutdown?
    ensures Inv(Step(s, e)) && Draining(Step(s, e))
    ensures AllProcs(Step(s, e).ds) == AllProcs(s.ds) - (if Collects(s, e) then 1 else 0)
  {
    hide Act, PutBack, Inv, Moved;
    StepInv(s, e);
    if Target(s, e).Some? {
      DrainTarget(s, e);
    } else if e.Stoppen? {
      DrainStopEach(s, Ids(s.ds), e.force);
    }
  }

  lemma {:induction false} DrainedExactly(ds: seq<Display>)
    requires forall i :: 0 <= i < |ds| ==> StatusOk(ds[i])
    requires forall i :: 0 <= i < |ds| ==> Drained(ds[i])
    ensures AnyRunning(ds) <==> AllProcs(ds) > 0
  {
    if ds != [] {
      DrainedExactly(ds[1..]);
      if AnyRunning(ds[1..]) {
        var i :| 0 <= i < |ds[1..]| && !Passive(ds[1..][i]);
        assert !Passive(ds[i+1]);
      }
      if AnyRunning(ds) && Passive(ds[0]) {
        var i :| 0 <= i < |ds| && !Passive(ds[i]);
        assert ds[1..][i-1] == ds[i];
      }
    }
  }

  /** How many known children a run collects. */
  function Collected(s: Daemon, es: seq<Event>): nat
    decreases |es|
  {
    if es == [] then 0
    else (if Collects(s, es[0]) then 1 else 0) + Collected(Step(s, es[0]), es[1..])
  }

  predicate NoCancel(es: seq<Event>) {
    forall e :: e in es ==> !e.CancelShutdown?
  }

  lemma {:induction false} DrainRun(s: Daemon, es: seq<Event>)
    requires Inv(s) && Draining(s) && PossibleRun(s, es) && NoCancel(es)
    ensures Inv(Run(s, es)) && Draining(Run(s, es))
    ensures AllProcs(Run(s, es).ds) == AllProcs(s.ds) - Collected(s, es)
    decreases |es|
  {
    if es != [] {
      DrainStep(s, es[0]);
      assert es[0] in es && forall e :: e in es[1..] ==> e in es;
      DrainRun(Step(s, es[0]), es[1..]);
    }
  }

  /**
   * After a forced stop the main loop may exit exactly when the children
   * recorded at that moment have all been collected.
   */
  lemma ShutdownDrains(s: Daemon, es: seq<Event>)
    requires Inv(s) && NoCancel(es)
    requires PossibleRun(Step(s, Stoppen(true)), es)
    ensures var s1 := Step(s, Stoppen(true)); var s2 := Run(s1, es);
      && Collected(s1, es) <= AllProcs(s1.ds)
      && (!AnyRunning(s2.ds) <==> Collected(s1, es) == AllProcs(s1.ds))
  {
    var s1 := Step(s, Stoppen(true));
    ForcedStopCondemnsAll(s);
    DrainRun(s1, es);
    DrainedExactly(Run(s1, es).ds);
  }

  // ----- A server launch ends -----

  /** Attempts left, then how far the current attempt is, then whether its server lives. */
  function LaunchMeasure(d: Display): int {
    8 * (d.info.cfg.serverAttempts - d.startTries)
    + (match d.serverStatus
       case Starting => 6
       case Terminated => 4
       case Killed => 2
       case _ => 0)
    + (if d.serverPid != NONE then 1 else 0)
  }

  /** The launch timer fires, or the launching server dies. */
  predicate LaunchEvent(s: Daemon, e: Event)
    requires s.starting.Some? && Has(s.ds, s.starting.value)
  {
    || (e.ServerTimer? && TimerDue(s))
    || (e.Reap? && e.pid == Get(s.ds, s.starting.value).serverPid)
  }

  /** The event forks an X server for the launching display. */
  predicate ForksServer(s: Daemon, e: Event)
    requires s.starting.Some? && Has(s.ds, s.starting.value)
  {
    e.ServerTimer? && TimerDue(s) && Get(s.ds, s.starting.value).serverStatus == Pausing
  }

  lemma LaunchAct(f: Focus, g: Globals, e: Event)
    requires FocusOk(f) && !f.gone && Aimed(f, g, e) && Launching(f.d) && f.d.info.cfg.serverAttempts > 0
    requires ForkOf(e) != NONE ==> f.d.serverPid != ForkOf(e)
    requires !e.ReserveCmd?
    ensures var f' := Act(f, g, e);
      if f'.gone || !Launching(f'.d) then f'.gone || f'.d.serverStatus == Ignore
      else if e.ServerTimer? || e.Reap? then LaunchMeasure(f'.d) < LaunchMeasure(f.d)
      else f'.d == f.d.(userSess := f'.d.userSess)
    ensures var f' := Act(f, g, e);
      !f'.gone && Launching(f'.d) ==>
        f'.d.startTries == f.d.startTries + (if e.ServerTimer? && f.d.serverStatus == Pausing then 1 else 0)
  {}

  /** The launch is over, or nothing happened to it, or it has come closer to its end. */
  predicate LaunchMoved(s: Daemon, e: Event, d: Display, d': Display)
    requires s.starting.Some? && Has(s.ds, s.starting.value)
  {
    if !Launching(d') then d'.serverStatus == Ignore
    else
      && d'.info == d.info
      && d'.startTries == d.startTries + (if ForksServer(s, e) then 1 else 0)
      && (LaunchEvent(s, e) ==> LaunchMeasure(d') < LaunchMeasure(d))
      && (!LaunchEvent(s, e) ==> LaunchMeasure(d') == LaunchMeasure(d))
  }

  lemma LaunchStep(s: Daemon, e: Event)
    requires Inv(s) && LaunchInProgress(s) && Possible(s, e) && !e.XConnOk?
    requires Get(s.ds, s.starting.value).info.cfg.serverAttempts > 0
    ensures var id := s.starting.value; var s' := Step(s, e);
      Has(s'.ds, id) ==> LaunchMoved(s, e, Get(s.ds, id), Get(s'.ds, id))
  {
    var id := s.starting.value;
    var i := IndexOf(s.ds, id);
    LaunchEventIsAimed(s, e);
    if e.Stoppen? {
      StopEachIds(s, Ids(s.ds), e.force, id);
    } else if e.Admit? {
      if !s.stopping { AdmitFacts(s, e.info, id); }
    } else if Target(s, e) != Some(i) {
      InvIsListed(s);
      OthersUntouched(s, e, id);
    } else {
      var k, f' := TargetBecomes(s, e);
      LaunchActMoved(s, e);
    }
  }

  lemma LaunchActMoved(s: Daemon, e: Event)
    requires Inv(s) && LaunchInProgress(s) && Possible(s, e)
    requires Target(s, e) == Some(IndexOf(s.ds, s.starting.value))
    requires Get(s.ds, s.starting.value).info.cfg.serverAttempts > 0
    ensures var k := Target(s, e).value; var f' := Act(FocusAt(s, k), GlobalsOf(s), e);
      !f'.gone ==> LaunchMoved(s, e, s.ds[k], f'.d)
  {
    hide Act, FocusOk, Aimed, PutBack;
    var k, f' := TargetBecomes(s, e);
    AimedIsLaunchEvent(s, e);
    LaunchAct(FocusAt(s, k), GlobalsOf(s), e);
  }

  lemma LaunchEventIsAimed(s: Daemon, e: Event)
    requires Inv(s) && LaunchInProgress(s) && Possible(s, e)
    ensures LaunchEvent(s, e) ==> Target(s, e) == Some(IndexOf(s.ds, s.starting.value))
  {
    var i := IndexOf(s.ds, s.starting.value);
    if e.Reap? && LaunchEvent(s, e) {
      assert s.ds[i].serverPid == e.pid;
      var r := FindByServerPid(s.ds, e.pid);
      assert FindByPid(s.ds, e.pid).None? && r.Some? && (r.value < i || i < r.value || i == r.value);
    }
  }

  lemma AimedIsLaunchEvent(s: Daemon, e: Event)
    requires Inv(s) && LaunchInProgress(s) && Possible(s, e)
    requires Target(s, e) == Some(IndexOf(s.ds, s.starting.value))
    ensures LaunchEvent(s, e) <==> e.ServerTimer? || e.Reap?
  {
    assert StatusOk(Get(s.ds, s.starting.value));
  }

  /** The launch of this display is under way before every event of the run. */
  ghost predicate LaunchRun(s: Daemon, es: seq<Event>, id: nat)
    decreases |es|
  {
    es == [] ||
    (s.starting == Some(id) && LaunchInProgress(s) && !es[0].XConnOk? && LaunchRun(Step(s, es[0]), es[1..], id))
  }

  function LaunchEvents(s: Daemon, es: seq<Event>): nat
    decreases |es|
  {
    if es == [] then 0
    else (if s.starting.Some? && Has(s.ds, s.starting.value) && LaunchEvent(s, es[0]) then 1 else 0)
         + LaunchEvents(Step(s, es[0]), es[1..])
  }

  function ServerForks(s: Daemon, es: seq<Event>): nat
    decreases |es|
  {
    if es == [] then 0
    else (if s.starting.Some? && Has(s.ds, s.starting.value) && ForksServer(s, es[0]) then 1 else 0)
         + ServerForks(Step(s, es[0]), es[1..])
  }

  /**
   * However the events interleave, a launch with limited attempts sees a bounded
   * number of timeouts and server deaths, and never forks more often than it may.
   */
  lemma {:induction false} LaunchEnds(s: Daemon, es: seq<Event>, id: nat)
    requires Inv(s) && PossibleRun(s, es) && LaunchRun(s, es, id)
    requires Has(s.ds, id) && Get(s.ds, id).info.cfg.serverAttempts > 0 && Launching(Get(s.ds, id))
    ensures LaunchEvents(s, es) <= LaunchMeasure(Get(s.ds, id)) + 1
    ensures Get(s.ds, id).startTries + ServerForks(s, es) <= Get(s.ds, id).info.cfg.serverAttempts
    decreases |es|
  {
    assert StatusOk(Get(s.ds, id));
    if es != [] {
      var s' := Step(s, es[0]);
      StepInv(s, es[0]);
      LaunchStep(s, es[0]);
      if Has(s'.ds, id) && Launching(Get(s'.ds, id)) {
        LaunchEnds(s', es[1..], id);
      }
    }
  }

  // ----- Who may clear the launch slot -----

  /** After a D_XConnOk report during a launch, the pending timer makes the daemon dereference a null pointer. */
  lemma XConnOkThenTimerCrashes(s: Daemon, now: int, fork: int)
    requires Inv(s) && LaunchInProgress(s) && s.timer.value <= now
    ensures s.timer.Some? && Step(Step(Step(s, XConnOk), Tick(now)), ServerTimer(fork)).crashed
  {
    hide Act, PutBack, StopEach, DistinctPids, HeadMost, StatusOk;
    assert Step(s, XConnOk) == s.(starting := None);
    assert Step(s.(starting := None), Tick(now)) == s.(starting := None, now := now);
  }

  function StaticDisplay(id: nat, name: string): Display {
    Fresh(Info(id, name, Local, Permanent, FromFile, Config(1, 4, 15, 15, false), 0, None, 0))
  }

  /** Two local displays, as configured for a dual-head machine. */
  const TWO_HEADS := Daemon([StaticDisplay(0, ":0"), StaticDisplay(1, ":1")], None, None, false, false, 10000, 2, false)

  /** The first display comes up; its user logs out while the second one's server is starting. */
  const LOGOUT_DURING_LAUNCH := [
    Kick(0, 10), Kick(1, NONE),                     // the server of ":0" is forked, ":1" has to wait
    ServerReady(11), XConnOk,                       // ":0" gets its session
    Kick(1, 12),                                    // the server of ":1" is forked
    Reap(11, ExNormal, NONE),                       // the session of ":0" ends, its server is kept
    Kick(0, 13), XConnOk,                           // the next session of ":0" reports its connection
    Tick(10015), ServerTimer(NONE)                  // the server of ":1" was not ready in time
  ]

  /** The states that run goes through. */
  function CrashStates(): (ss: seq<Daemon>)
    ensures |ss| == 11
  {
    var s0 := TWO_HEADS;
    var a, b := s0.ds[0], s0.ds[1];
    var a1 := a.(status := Running, serverStatus := Starting, serverPid := 10, startTries := 1);
    var s1 := s0.(ds := [a1, b], starting := Some(0), timer := Some(10015));
    var b2 := b.(status := Running, serverStatus := Awaiting);
    var s2 := s1.(ds := [a1, b2]);
    var a3 := a1.(serverStatus := Ignore, pid := 11, lastStart := 10000);
    var s3 := s2.(ds := [a3, b2], timer := None);
    var s4 := s3.(starting := None);
    var b5 := b2.(serverStatus := Starting, serverPid := 12, startTries := 1);
    var s5 := s4.(ds := [a3, b5], starting := Some(1), timer := Some(10015));
    var a6 := a3.(pid := NONE, status := NotRunning, startTries := 0);
    var s6 := s5.(ds := [a6, b5]);
    var a7 := a6.(pid := 13, status := Running);
    var s7 := s6.(ds := [a7, b5]);
    var s8 := s7.(starting := None);
    var s9 := s8.(now := 10015);
    [s0, s1, s2, s3, s4, s5, s6, s7, s8, s9, s9.(timer := None, crashed := true)]
  }

  lemma CrashStart()
    ensures var ss := CrashStates(); var es := LOGOUT_DURING_LAUNCH;
      forall i :: 0 <= i < 4 ==> Possible(ss[i], es[i]) && Step(ss[i], es[i]) == ss[i+1]
  {
    var ss, es := CrashStates(), LOGOUT_DURING_LAUNCH;
    assert Step(ss[0], es[0]) == ss[1];
    assert Step(ss[1], es[1]) == ss[2];
    assert Step(ss[2], es[2]) == ss[3];
    assert Step(ss[3], es[3]) == ss[4];
  }

  lemma CrashLogout()
    ensures var ss := CrashStates(); var es := LOGOUT_DURING_LAUNCH;
      forall i :: 4 <= i < 6 ==> Possible(ss[i], es[i]) && Step(ss[i], es[i]) == ss[i+1]
  {
    var ss, es := CrashStates(), LOGOUT_DURING_LAUNCH;
    IndexOfUnique(ss[4].ds, 1);
    assert Step(ss[4], es[4]) == ss[5];
    assert Step(ss[5], es[5]) == ss[6];
  }

  lemma CrashEnd()
    ensures var ss := CrashStates(); var es := LOGOUT_DURING_LAUNCH;
      forall i :: 6 <= i < 10 ==> Possible(ss[i], es[i]) && Step(ss[i], es[i]) == ss[i+1]
  {
    var ss, es := CrashStates(), LOGOUT_DURING_LAUNCH;
    assert Step(ss[6], es[6]) == ss[7];
    assert Step(ss[7], es[7]) == ss[8];
    assert Step(ss[8], es[8]) == ss[9];
    assert Step(ss[9], es[9]) == ss[10];
  }

  /** The unguarded XConnOk is reachable: an ordinary log-out brings the daemon down. */
  lemma LogoutDuringLaunchCrashes()
    ensures Initial(TWO_HEADS) && PossibleRun(TWO_HEADS, LOGOUT_DURING_LAUNCH)
    ensures Run(TWO_HEADS, LOGOUT_DURING_LAUNCH).crashed
  {
    CrashStart();
    CrashLogout();
    CrashEnd();
    RunOf(TWO_HEADS, LOGOUT_DURING_LAUNCH, CrashStates());
  }

  /** A run is what its states say it is. */
  lemma {:induction false} RunOf(s: Daemon, es: seq<Event>, ss: seq<Daemon>)
    requires |ss| == |es| + 1 && ss[0] == s
    requires forall i :: 0 <= i < |es| ==> Possible(ss[i], es[i]) && Step(ss[i], es[i]) == ss[i+1]
    ensures PossibleRun(s, es) && Run(s, es) == ss[|es|]
    decreases |es|
  {
    if es != [] {
      assert Possible(ss[0], es[0]);
      RunOf(ss[1], es[1..], ss[1..]);
    }
  }

  /** One local display whose server may be started twice. */
  const ONE_HEAD := Daemon([StuckDisplay()], None, None, false, false, 10000, 1, false)

  function StuckDisplay(): Display {
    Fresh(Info(0, ":0", Local, Permanent, FromFile, Config(2, 4, 15, 15, false), 0, None, 0))
  }

  /** Its server neither gets ready nor dies, and the second fork fails. */
  const STUCK_SERVER := [
    Kick(0, 10),                                    // the server is forked
    Tick(10015), ServerTimer(NONE),                 // SIGTERM
    Tick(10030), ServerTimer(NONE),                 // SIGKILL
    Tick(10040), ServerTimer(NONE),                 // left alone
    Tick(10055), ServerTimer(NONE)                  // the second attempt
  ]

  function StuckStates(): (ss: seq<Daemon>)
    ensures |ss| == 10
  {
    var s0, d := ONE_HEAD, StuckDisplay();
    var d1 := d.(status := Running, serverStatus := Starting, serverPid := 10, startTries := 1);
    var s1 := s0.(ds := [d1], starting := Some(0), timer := Some(10015));
    var s3 := s1.(now := 10015, ds := [d1.(serverStatus := Terminated)], timer := Some(10030));
    var s5 := s1.(now := 10030, ds := [d1.(serverStatus := Killed)], timer := Some(10040));
    var s7 := s1.(now := 10040, ds := [d1.(serverStatus := Pausing)], timer := Some(10055));
    [s0, s1, s1.(now := 10015), s3, s3.(now := 10030), s5, s5.(now := 10040), s7, s7.(now := 10055),
     s7.(now := 10055, ds := [], starting := None, timer := None)]
  }

  lemma StuckFirstHalf()
    ensures var ss := StuckStates(); var es := STUCK_SERVER;
      forall i :: 0 <= i < 4 ==> Possible(ss[i], es[i]) && Step(ss[i], es[i]) == ss[i+1]
  {
    var ss, es := StuckStates(), STUCK_SERVER;
    assert Step(ss[0], es[0]) == ss[1];
    assert Step(ss[1], es[1]) == ss[2];
    assert Step(ss[2], es[2]) == ss[3];
    assert Step(ss[3], es[3]) == ss[4];
  }

  lemma StuckSecondHalf()
    ensures var ss := StuckStates(); var es := STUCK_SERVER;
      forall i :: 4 <= i < 9 ==> Possible(ss[i], es[i]) && Step(ss[i], es[i]) == ss[i+1]
  {
    var ss, es := StuckStates(), STUCK_SERVER;
    assert Step(ss[4], es[4]) == ss[5];
    assert Step(ss[5], es[5]) == ss[6];
    assert Step(ss[6], es[6]) == ss[7];
    assert Step(ss[7], es[7]) == ss[8];
    assert Step(ss[8], es[8]) == ss[9];
  }

  /** A configured display can leave the list while its server, forked as 10 and never collected, still runs. */
  lemma StuckServerIsLeftBehind()
    ensures Initial(ONE_HEAD) && PossibleRun(ONE_HEAD, STUCK_SERVER) && TameRun(ONE_HEAD, STUCK_SERVER)
    ensures FindByServerPid(Run(ONE_HEAD, STUCK_SERVER[..1]).ds, 10) == Some(0)
    ensures forall e :: e in STUCK_SERVER ==> !e.Reap?
    ensures Run(ONE_HEAD, STUCK_SERVER).ds == []
  {
    var es, ss := STUCK_SERVER, StuckStates();
    StuckFirstHalf();
    StuckSecondHalf();
    RunOf(ONE_HEAD, es, ss);
    RunOf(ONE_HEAD, es[..1], ss[..2]);
    NoReportsIsTame(ONE_HEAD, es);
  }

  lemma {:induction false} NoReportsIsTame(s: Daemon, es: seq<Event>)
    requires forall e :: e in es ==> !e.XConnOk?
    ensures TameRun(s, es)
    decreases |es|
  {
    if es != [] {
      assert es[0] in es;
      forall e | e in es[1..] ensures !e.XConnOk? { assert e in es; }
      NoReportsIsTame(Step(s, es[0]), es[1..]);
    }
  }
}

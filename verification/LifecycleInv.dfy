/**
 * What every reachable state of the daemon keeps.
 */
module LifecycleInv {
  import opened Wrappers
  import opened Displays
  import opened Lifecycle

  // ----- The invariant -----

  /** The status a display claims agrees with the processes it records. */
  predicate StatusOk(d: Display) {
    && (match d.status
        case Zombie => (d.pid != NONE || d.serverPid != NONE) && (d.pid != NONE ==> d.zstatus == DsRemove)
        case Phoenix => d.serverPid != NONE && d.pid == NONE
        case RemoteLogin => d.serverPid != NONE && d.pid == NONE
        case Raiser => d.pid != NONE
        case NotRunning => d.pid == NONE
        case Reserve => d.pid == NONE && d.serverPid == NONE
        case Running => d.pid == NONE ==> d.serverStatus != Ignore)
    && LaunchOk(d)
  }

  /** A server start is under way only on a running local display without a session. */
  predicate LaunchOk(d: Display) {
    && (d.serverStatus != Ignore ==> d.status == Running && d.pid == NONE && d.info.location == Local)
    && (d.serverStatus == Awaiting ==> d.serverPid == NONE)
    && (d.serverStatus in {Starting, Terminated, Killed} ==> d.serverPid != NONE)
    && (Launching(d) && d.info.cfg.serverAttempts > 0 ==> d.startTries <= d.info.cfg.serverAttempts)
    && (d.serverStatus == Pausing && d.info.cfg.serverAttempts > 0 ==>
          d.startTries < d.info.cfg.serverAttempts)
  }

  /** No child is recorded twice, and what is recorded is a child. */
  ghost predicate DistinctPids(ds: seq<Display>) {
    && (forall i, j :: 0 <= i < j < |ds| ==>
          && (ds[i].pid != NONE ==> ds[i].pid != ds[j].pid && ds[i].pid != ds[j].serverPid)
          && (ds[i].serverPid != NONE ==> ds[i].serverPid != ds[j].pid && ds[i].serverPid != ds[j].serverPid))
    && (forall i :: 0 <= i < |ds| && ds[i].pid != NONE ==> ds[i].pid != ds[i].serverPid)
    && (forall i :: 0 <= i < |ds| ==> RealPid(ds[i].pid) && RealPid(ds[i].serverPid))
  }

  predicate RealPid(pid: int) {
    pid == NONE || pid > 0
  }

  /** Of the displays of one name, all but the head-most are condemned. */
  ghost predicate HeadMost(ds: seq<Display>) {
    forall i, j :: 0 <= i < j < |ds| && ds[i].info.name == ds[j].info.name ==> Condemned(ds[j])
  }

  /** The launch slot: at most one start is under way, and the timer runs exactly then. */
  ghost predicate SlotOk(s: Daemon) {
    && (forall i :: 0 <= i < |s.ds| && Launching(s.ds[i]) ==> s.starting == Some(s.ds[i].Id()))
    && (s.starting.Some? ==> Has(s.ds, s.starting.value))
    && (s.timer.Some? <==> s.starting.Some? && Launching(Get(s.ds, s.starting.value)))
  }

  ghost predicate Inv(s: Daemon) {
    && UniqueIds(s.ds)
    && (forall i :: 0 <= i < |s.ds| ==> s.ds[i].Id() < s.nextId && StatusOk(s.ds[i]))
    && DistinctPids(s.ds)
    && HeadMost(s.ds)
    && SlotOk(s)
    && !s.crashed
  }

  /** fork() fails or returns a pid that no display records. */
  ghost predicate ForkOk(ds: seq<Display>, fork: int) {
    fork == NONE ||
    (fork > 0 && forall i :: 0 <= i < |ds| ==> ds[i].pid != fork && ds[i].serverPid != fork)
  }

  ghost predicate LaunchInProgress(s: Daemon) {
    s.starting.Some? && Has(s.ds, s.starting.value) && Launching(Get(s.ds, s.starting.value))
  }

  /** The environment's side of an event: fresh pids and real children. */
  ghost predicate Possible(s: Daemon, e: Event) {
    && ForkOk(s.ds, ForkOf(e))
    && (e.Reap? ==> e.pid > 0)
  }

  /** D_XConnOk clears the launch slot whoever sent it; harmless only between launches. */
  ghost predicate Tame(s: Daemon, e: Event) {
    e.XConnOk? ==> !LaunchInProgress(s)
  }

  ghost predicate Initial(s: Daemon) {
    && UniqueIds(s.ds)
    && (forall i :: 0 <= i < |s.ds| ==>
          && s.ds[i].Id() < s.nextId
          && (s.ds[i] == Fresh(s.ds[i].info) || s.ds[i] == Fresh(s.ds[i].info).(status := Reserve)))
    && (forall i, j :: 0 <= i < j < |s.ds| ==> s.ds[i].info.name != s.ds[j].info.name)
    && s.starting.None? && s.timer.None? && !s.stopping && !s.sdDue && !s.crashed
  }

  // ----- Steps on a focus -----

  /** The part of the invariant that speaks of the focused display. */
  predicate FocusOk(f: Focus) {
    if f.gone then f.starting != Some(f.d.Id())
    else
      && StatusOk(f.d)
      && (Launching(f.d) ==> f.starting == Some(f.d.Id()))
      && (f.starting == Some(f.d.Id()) ==> (f.timer.Some? <==> Launching(f.d)))
  }

  /** What the focused display may become, and what may happen to the launch slot. */
  predicate Moved(f: Focus, f': Focus, fork: int) {
    && f'.d.info == f.d.info
    && (f'.d.pid == f.d.pid || f'.d.pid == NONE || f'.d.pid == fork)
    && (f'.d.serverPid == f.d.serverPid || f'.d.serverPid == NONE || f'.d.serverPid == fork)
    && (f'.d.pid == fork && f'.d.serverPid == fork ==> fork == NONE)
    && (Condemned(f.d) && !f'.gone ==> Condemned(f'.d))
    && (f'.gone ==> f'.d.pid == NONE && f'.d.serverPid == NONE)
    && SlotMoved(f, f')
  }

  /** The slot is left alone while another display holds it; otherwise it is freed or taken. */
  predicate SlotMoved(f: Focus, f': Focus) {
    if f.starting.Some? && f.starting != Some(f.d.Id()) then
      f'.starting == f.starting && f'.timer == f.timer
    else
      (f'.starting.None? && f'.timer.None?) || f'.starting == Some(f.d.Id())
  }

  /** The slot part of the invariant, seen from a display. */
  predicate SlotIdle(f: Focus) {
    f.starting.None? ==> f.timer.None?
  }

  lemma StopDisplayOk(f: Focus)
    requires FocusOk(f) && SlotIdle(f) && !f.gone
    ensures FocusOk(StopDisplay(f)) && Moved(f, StopDisplay(f), NONE)
    ensures StopDisplay(f).gone || Condemned(StopDisplay(f).d)
    ensures StopDisplay(f).starting != Some(f.d.Id())
  {}

  lemma RStopDisplayOk(f: Focus, end: EndState, fork: int)
    requires !f.gone && SlotIdle(f) && f.d.serverStatus == Ignore
    requires f.starting == Some(f.d.Id()) ==> f.timer.None?
    requires fork != NONE ==> f.d.pid != fork && f.d.serverPid != fork
    requires Condemned(f.d) || f.d.pid != NONE ==> end == DsRemove
    ensures FocusOk(RStopDisplay(f, end, fork)) && Moved(f, RStopDisplay(f, end, fork), fork)
  {}

  lemma StartServerFailedOk(f: Focus, g: Globals)
    requires !f.gone && f.starting == Some(f.d.Id()) && Launching(f.d)
    requires f.d.status == Running && f.d.pid == NONE && f.d.info.location == Local
    requires f.d.info.cfg.serverAttempts > 0 ==> f.d.startTries <= f.d.info.cfg.serverAttempts
    ensures FocusOk(StartServerFailed(f, g)) && Moved(f, StartServerFailed(f, g), NONE)
    ensures !StartServerFailed(f, g).gone ==>
              StartServerFailed(f, g).d.serverStatus in {Pausing, Ignore}
  {}

  lemma StartServerOnceOk(f: Focus, g: Globals, fork: int)
    requires !f.gone && f.starting == Some(f.d.Id())
    requires f.d.status == Running && f.d.pid == NONE && f.d.info.location == Local
    requires f.d.info.cfg.serverAttempts > 0 ==> f.d.startTries < f.d.info.cfg.serverAttempts
    ensures FocusOk(StartServerOnce(f, g, fork)) && Moved(f, StartServerOnce(f, g, fork), fork)
  {
    if fork == NONE {
      var d := f.d.(startTries := f.d.startTries + 1, serverStatus := Starting, serverPid := fork);
      StartServerFailedOk(f.(d := d), g);
    }
  }

  lemma StartDisplayP2Ok(f: Focus, g: Globals, fork: int)
    requires !f.gone && SlotIdle(f)
    requires f.d.status == Running && f.d.serverStatus == Ignore && f.d.pid == NONE
    requires f.starting == Some(f.d.Id()) ==> f.timer.None?
    requires fork != NONE ==> f.d.serverPid != fork
    ensures FocusOk(StartDisplayP2(f, g, fork)) && Moved(f, StartDisplayP2(f, g, fork), fork)
  {}

  lemma KickDisplayOk(f: Focus, g: Globals, fork: int)
    requires FocusOk(f) && SlotIdle(f) && !f.gone && !g.stopping
    requires fork != NONE ==> f.d.pid != fork && f.d.serverPid != fork
    ensures FocusOk(KickDisplay(f, g, fork)) && Moved(f, KickDisplay(f, g, fork), fork)
  {
    var f1 := if f.d.status == NotRunning then StartDisplay(f, g, fork) else f;
    if f.d.status == NotRunning && !(f.d.info.location == Local && f.d.serverPid == NONE) {
      StartDisplayP2Ok(f.(d := f.d.(status := Running)), g, fork);
    }
    if f1.d.serverStatus == Awaiting && f1.starting.None? {
      StartServerOnceOk(f1.(starting := Some(f1.d.Id()), d := f1.d.(startTries := 0)), g, fork);
    }
  }

  /** A session ended and the display is neither stopped nor disabled. */
  lemma RestartOk(f: Focus, f': Focus, fork: int)
    requires !f.gone && SlotIdle(f) && f.d.serverStatus == Ignore && f.d.pid == NONE && f.d.status != Zombie
    requires f.starting == Some(f.d.Id()) ==> f.timer.None?
    requires f' == f.(d := f'.d)
    requires f'.d == f.d.(startTries := f'.d.startTries, userSess := f'.d.userSess, status := f'.d.status)
    requires f'.d.status == NotRunning || (f'.d.status == Phoenix && f.d.serverPid != NONE)
    ensures FocusOk(f') && Moved(f, f', fork)
  {}

  lemma RestartDisplayOk(f: Focus, g: Globals, cmd: ServerCmd, fork: int)
    requires !f.gone && SlotIdle(f) && f.d.serverStatus == Ignore && f.d.pid == NONE && f.d.status != Zombie
    requires f.starting == Some(f.d.Id()) ==> f.timer.None?
    ensures FocusOk(RestartDisplay(f, g, cmd)) && Moved(f, RestartDisplay(f, g, cmd), fork)
  {
    var f1 := if cmd != XsRetry then f.(d := f.d.(startTries := 0))
              else if f.d.info.location == Foreign then f.(d := f.d.(startTries := f.d.startTries + 1))
              else f;
    RStopDisplayOk(f1, DsRemove, NONE);
    var f2 := RestartDisplay(f, g, cmd);
    if f2 != StopDisplay(f1) {
      RestartOk(f, f2, fork);
    }
  }

  lemma ExitDisplayOk(f: Focus, g: Globals, end: EndState, cmd: ServerCmd, fork: int)
    requires !f.gone && SlotIdle(f) && f.d.serverStatus == Ignore && f.d.pid == NONE
    requires f.starting == Some(f.d.Id()) ==> f.timer.None?
    requires fork != NONE ==> f.d.serverPid != fork
    ensures FocusOk(ExitDisplay(f, g, end, cmd, fork))
    ensures Moved(f, ExitDisplay(f, g, end, cmd, fork), fork)
  {
    var cmd' := if f.d.status == Raiser then XsKeep else cmd;
    var end' := if g.sdDue then DsRemove else end;
    var f1 := f.(d := f.d.(userSess := NONE));
    if f.d.status == Zombie {
      RStopDisplayOk(f1, f1.d.zstatus, fork);
    } else if g.stopping {
      RStopDisplayOk(f1, DsRemove, NONE);
    } else if end' != DsRestart || f.d.info.lifetime == Transient {
      RStopDisplayOk(f1, end', fork);
    } else {
      RestartDisplayOk(f1, g, cmd', fork);
    }
  }

  lemma ReapSessionOk(f: Focus, g: Globals, exit: Exit, fork: int)
    requires FocusOk(f) && SlotIdle(f) && !f.gone && f.d.pid != NONE
    requires fork != NONE ==> f.d.pid != fork && f.d.serverPid != fork
    ensures FocusOk(ReapSession(f, g, exit, fork)) && Moved(f, ReapSession(f, g, exit, fork), fork)
  {
    var f1 := f.(d := f.d.(pid := NONE));
    forall end, cmd
      ensures FocusOk(ExitDisplay(f1, g, end, cmd, fork)) && Moved(f1, ExitDisplay(f1, g, end, cmd, fork), fork)
    {
      ExitDisplayOk(f1, g, end, cmd, fork);
    }
  }

  lemma ReapServerOk(f: Focus, g: Globals, fork: int)
    requires FocusOk(f) && SlotIdle(f) && !f.gone && f.d.serverPid != NONE
    requires fork != NONE ==> f.d.pid != fork && f.d.serverPid != fork
    ensures FocusOk(ReapServer(f, g, fork)) && Moved(f, ReapServer(f, g, fork), fork)
  {
    var f1 := f.(d := f.d.(serverPid := NONE));
    if f.d.status == Zombie {
      RStopDisplayOk(f1, f1.d.zstatus, fork);
    } else if f.d.status == Running && f.starting == Some(f.d.Id()) && f.d.serverStatus != Ignore {
      StartServerFailedOk(f1, g);
    }
  }

  lemma StartServerTimeoutOk(f: Focus, g: Globals, fork: int)
    requires FocusOk(f) && !f.gone && f.starting == Some(f.d.Id()) && f.timer.Some?
    requires fork != NONE ==> f.d.pid != fork && f.d.serverPid != fork
    ensures f.d.serverStatus !in {Ignore, Awaiting}
    ensures var f' := StartServerTimeout(f.(timer := None), g, fork); FocusOk(f') && Moved(f, f', fork)
  {
    var f1 := f.(timer := None);
    if f.d.serverStatus == Killed {
      StartServerFailedOk(f1, g);
    } else if f.d.serverStatus == Pausing {
      StartServerOnceOk(f1, g, fork);
    }
  }

  lemma StartServerSuccessOk(f: Focus, g: Globals, fork: int)
    requires FocusOk(f) && !f.gone && f.starting == Some(f.d.Id()) && f.d.serverStatus == Starting
    requires fork != NONE ==> f.d.pid != fork && f.d.serverPid != fork
    ensures var f' := StartServerSuccess(f, g, fork); FocusOk(f') && Moved(f, f', fork)
  {
    StartDisplayP2Ok(f.(d := f.d.(serverStatus := Ignore), timer := None), g, fork);
  }

  lemma CommandsOk(f: Focus, nuke: bool)
    requires FocusOk(f) && SlotIdle(f) && !f.gone
    ensures FocusOk(Suicide(f)) && Moved(f, Suicide(f), NONE)
    ensures FocusOk(Login(f, nuke)) && Moved(f, Login(f, nuke), NONE)
  {}

  /** What holds of the display an event is aimed at. */
  predicate Aimed(f: Focus, g: Globals, e: Event) {
    match e
    case Kick(_, _) => !g.stopping
    case Reap(pid, _, _) => pid > 0 && (f.d.pid == pid || f.d.serverPid == pid)
    case ServerTimer(_) => f.starting == Some(f.d.Id()) && f.timer.Some?
    case ServerReady(_) => f.starting == Some(f.d.Id()) && f.d.serverStatus == Starting
    case ReserveCmd => f.d.status == Reserve
    case _ => true
  }

  lemma ActOk(f: Focus, g: Globals, e: Event)
    requires FocusOk(f) && SlotIdle(f) && !f.gone && Aimed(f, g, e)
    requires ForkOf(e) != NONE ==> f.d.pid != ForkOf(e) && f.d.serverPid != ForkOf(e)
    ensures FocusOk(Act(f, g, e)) && Moved(f, Act(f, g, e), ForkOf(e))
  {
    match e {
      case Kick(_, fork) => KickDisplayOk(f, g, fork);
      case Reap(pid, exit, fork) =>
        if f.d.pid == pid { ReapSessionOk(f, g, exit, fork); } else { ReapServerOk(f, g, fork); }
      case ServerTimer(fork) => StartServerTimeoutOk(f, g, fork);
      case ServerReady(fork) => StartServerSuccessOk(f, g, fork);
      case StopOne(_) => StopDisplayOk(f);
      case UnmanageCmd(_) => StopDisplayOk(f);
      case SuicideCmd(_) => CommandsOk(f, false);
      case LoginCmd(_, nuke) => CommandsOk(f, nuke);
      case _ =>
    }
  }

  // ----- Lifting a step on a focus to the daemon -----

  lemma IndexOfUnique(ds: seq<Display>, k: nat)
    requires UniqueIds(ds) && k < |ds|
    ensures IndexOf(ds, ds[k].Id()) == k
  {
    var i := IndexOf(ds, ds[k].Id());
    assert i <= k;
  }

  lemma FocusAtOk(s: Daemon, k: nat)
    requires Inv(s) && k < |s.ds|
    ensures FocusOk(FocusAt(s, k)) && SlotIdle(FocusAt(s, k))
  {
    IndexOfUnique(s.ds, k);
  }

  lemma IndexOfAbsent(ds: seq<Display>, id: nat)
    requires forall i :: 0 <= i < |ds| ==> ds[i].Id() != id
    ensures !Has(ds, id)
  {}

  lemma WithoutShifts(ds: seq<Display>, k: nat)
    requires UniqueIds(ds) && k < |ds|
    ensures var ds' := Without(ds, k);
      && |ds'| == |ds| - 1 && UniqueIds(ds')
      && forall i :: 0 <= i < |ds'| ==> ds'[i] == ds[if i < k then i else i + 1]
  {}

  lemma WithoutAt(ds: seq<Display>, k: nat)
    requires UniqueIds(ds) && k < |ds|
    ensures var ds' := Without(ds, k);
      && UniqueIds(ds')
      && (forall x :: Has(ds', x) <==> Has(ds, x) && x != ds[k].Id())
      && (forall x :: Has(ds', x) ==> Get(ds', x) == Get(ds, x))
  {
    var ds' := Without(ds, k);
    WithoutShifts(ds, k);
    hide Without;
    forall x
      ensures Has(ds', x) <==> Has(ds, x) && x != ds[k].Id()
      ensures Has(ds', x) ==> Get(ds', x) == Get(ds, x)
    {
      if Has(ds, x) {
        var i := IndexOf(ds, x);
        if i != k { IndexOfUnique(ds', if i < k then i else i - 1); } else { IndexOfAbsent(ds', x); }
      } else {
        IndexOfAbsent(ds', x);
      }
    }
  }

  lemma ReplacedAt(ds: seq<Display>, k: nat, d: Display)
    requires UniqueIds(ds) && k < |ds| && d.Id() == ds[k].Id()
    ensures var ds' := ds[k := d];
      && UniqueIds(ds')
      && (forall x :: Has(ds', x) <==> Has(ds, x))
      && (forall x :: Has(ds', x) ==> Get(ds', x) == if x == d.Id() then d else Get(ds, x))
  {
    var ds' := ds[k := d];
    forall i | 0 <= i < |ds'| ensures ds'[i].Id() == ds[i].Id() {}
    assert UniqueIds(ds');
    forall x ensures IndexOf(ds', x) == IndexOf(ds, x) {
      if Has(ds, x) { IndexOfUnique(ds', IndexOf(ds, x)); } else { IndexOfAbsent(ds', x); }
    }
    IndexOfUnique(ds, k);
  }

  /** Which records are listed after a step on one of them, and what they hold. */
  lemma PutBackAt(s: Daemon, k: nat, f': Focus)
    requires UniqueIds(s.ds) && k < |s.ds| && f'.d.info == s.ds[k].info
    ensures var ds' := PutBack(s, k, f').ds; var id := s.ds[k].Id();
      && UniqueIds(ds')
      && (forall x :: Has(ds', x) <==> Has(s.ds, x) && !(f'.gone && x == id))
      && (forall x :: Has(ds', x) && x != id ==> Get(ds', x) == Get(s.ds, x))
      && (!f'.gone ==> Has(ds', id) && Get(ds', id) == f'.d)
    ensures Has(s.ds, s.ds[k].Id()) && Get(s.ds, s.ds[k].Id()) == s.ds[k]
  {
    IndexOfUnique(s.ds, k);
    if f'.gone { WithoutAt(s.ds, k); } else { ReplacedAt(s.ds, k, f'.d); }
  }

  /** In a list of distinct ids, reading by position and reading by id agree. */
  lemma ByPosition(ds: seq<Display>, i: nat)
    requires UniqueIds(ds) && i < |ds|
    ensures Has(ds, ds[i].Id()) && Get(ds, ds[i].Id()) == ds[i]
  {
    IndexOfUnique(ds, i);
  }

  lemma PutBackSlot(s: Daemon, k: nat, f': Focus, fork: int)
    requires Inv(s) && k < |s.ds|
    requires FocusOk(f') && Moved(FocusAt(s, k), f', fork)
    ensures SlotOk(PutBack(s, k, f'))
  {
    var s' := PutBack(s, k, f');
    PutBackAt(s, k, f');
    FocusAtOk(s, k);
    forall i | 0 <= i < |s'.ds| && Launching(s'.ds[i]) ensures s'.starting == Some(s'.ds[i].Id()) {
      var x := s'.ds[i].Id();
      ByPosition(s'.ds, i);
      if x != s.ds[k].Id() {
        assert Launching(s.ds[IndexOf(s.ds, x)]);
      }
    }
  }

  /** Where a record of the new list was in the old one. */
  function Before(k: nat, f': Focus, i: nat): nat {
    if f'.gone && i >= k then i + 1 else i
  }

  lemma PutBackPositions(s: Daemon, k: nat, f': Focus)
    requires k < |s.ds|
    ensures var ds' := PutBack(s, k, f').ds;
      forall i :: 0 <= i < |ds'| ==>
        var i0 := Before(k, f', i);
        i0 < |s.ds| && (i0 != k ==> ds'[i] == s.ds[i0]) && (i0 == k ==> !f'.gone && ds'[i] == f'.d)
  {}

  lemma PutBackPids(s: Daemon, k: nat, f': Focus, fork: int)
    requires DistinctPids(s.ds) && k < |s.ds| && ForkOk(s.ds, fork)
    requires Moved(FocusAt(s, k), f', fork)
    ensures DistinctPids(PutBack(s, k, f').ds)
  {
    PutBackPositions(s, k, f');
    hide PutBack, SlotMoved;
  }

  lemma PutBackHeadMost(s: Daemon, k: nat, f': Focus, fork: int)
    requires HeadMost(s.ds) && k < |s.ds|
    requires Moved(FocusAt(s, k), f', fork)
    ensures HeadMost(PutBack(s, k, f').ds)
  {
    PutBackPositions(s, k, f');
    hide PutBack, SlotMoved;
  }

  lemma PutBackInv(s: Daemon, k: nat, f': Focus, fork: int)
    requires Inv(s) && k < |s.ds| && ForkOk(s.ds, fork)
    requires FocusOk(f') && Moved(FocusAt(s, k), f', fork)
    ensures Inv(PutBack(s, k, f'))
  {
    PutBackSlot(s, k, f', fork);
    PutBackPids(s, k, f', fork);
    PutBackHeadMost(s, k, f', fork);
    PutBackAt(s, k, f');
    var s' := PutBack(s, k, f');
    forall i | 0 <= i < |s'.ds| ensures s'.ds[i].Id() < s'.nextId && StatusOk(s'.ds[i]) {
      ByPosition(s'.ds, i);
    }
  }

  // ----- Steps of the daemon -----

  lemma StopAtInv(s: Daemon, k: nat)
    requires Inv(s) && k < |s.ds|
    ensures Inv(PutBack(s, k, StopDisplay(FocusAt(s, k))))
  {
    FocusAtOk(s, k);
    StopDisplayOk(FocusAt(s, k));
    PutBackInv(s, k, StopDisplay(FocusAt(s, k)), NONE);
  }

  lemma StopShape(f: Focus)
    requires FocusOk(f) && SlotIdle(f) && !f.gone
    ensures var f' := StopDisplay(f);
      && (f'.starting == f.starting || (f.starting == Some(f.d.Id()) && f'.starting.None?))
      && (f.starting == Some(f.d.Id()) ==> f'.starting.None?)
      && (if f'.gone then Procs(f.d) == 0
          else f'.d == f.d.(status := Zombie, zstatus := DsRemove, serverStatus := Ignore))
  {}

  /** What stopping one display does to it, to the others and to the launch slot. */
  ghost predicate StopFacts(s: Daemon, s': Daemon, id: nat, force: bool) {
    && s'.nextId == s.nextId && s'.stopping == s.stopping
    && (s'.starting == s.starting || (s.starting == Some(id) && s'.starting.None?))
    && (force && s.starting == Some(id) && Has(s.ds, id) ==> s'.starting.None?)
    && (forall x :: Has(s'.ds, x) ==> Has(s.ds, x))
    && (forall x :: Has(s'.ds, x) ==> Stopped(Get(s.ds, x), Get(s'.ds, x), x == id, force))
    && (forall x :: Has(s.ds, x) && !Has(s'.ds, x) ==> x == id && Procs(Get(s.ds, x)) == 0)
  }

  predicate Stopped(d: Display, d': Display, target: bool, force: bool) {
    || (d' == d && !(target && force))
    || (target && d' == d.(status := Zombie, zstatus := DsRemove, serverStatus := Ignore))
  }

  lemma StopAtFacts(s: Daemon, k: nat, force: bool)
    requires UniqueIds(s.ds) && k < |s.ds| && FocusOk(FocusAt(s, k)) && SlotIdle(FocusAt(s, k))
    ensures StopFacts(s, PutBack(s, k, StopDisplay(FocusAt(s, k))), s.ds[k].Id(), force)
  {
    var f' := StopDisplay(FocusAt(s, k));
    var s' := PutBack(s, k, f');
    StopShape(FocusAt(s, k));
    PutBackAt(s, k, f');
    forall x | Has(s'.ds, x) ensures Stopped(Get(s.ds, x), Get(s'.ds, x), x == s.ds[k].Id(), force) {}
  }

  lemma StopIfFacts(s: Daemon, id: nat, force: bool)
    requires Inv(s)
    ensures Inv(StopIf(s, id, force)) && StopFacts(s, StopIf(s, id, force), id, force)
  {
    var k := IndexOf(s.ds, id);
    if k < |s.ds| && (force || (s.ds[k].status != RemoteLogin && s.ds[k].userSess < 0)) {
      StopAtInv(s, k);
      FocusAtOk(s, k);
      StopAtFacts(s, k, force);
    }
  }

  lemma {:induction false} StopEachInv(s: Daemon, ids: seq<nat>, force: bool)
    requires Inv(s)
    ensures Inv(StopEach(s, ids, force))
    decreases |ids|
  {
    if ids != [] {
      StopIfFacts(s, ids[0], force);
      StopEachInv(StopIf(s, ids[0], force), ids[1..], force);
    }
  }

  lemma NewDisplayShifts(ds: seq<Display>, d: Display, i: nat)
    requires UniqueIds([d] + ds) && i < |ds|
    ensures IndexOf([d] + ds, ds[i].Id()) == i + 1 && Get([d] + ds, ds[i].Id()) == ds[i]
  {
    assert ([d] + ds)[i+1] == ds[i];
    IndexOfUnique([d] + ds, i + 1);
  }

  lemma NewDisplaySlot(s: Daemon, d: Display)
    requires UniqueIds(s.ds) && SlotOk(s) && !Launching(d)
    requires UniqueIds([d] + s.ds)
    ensures SlotOk(s.(ds := [d] + s.ds))
  {
    var ds' := [d] + s.ds;
    forall i | 0 <= i < |ds'| && Launching(ds'[i]) ensures s.starting == Some(ds'[i].Id()) {
      assert ds'[i] == s.ds[i-1];
    }
    if s.starting.Some? {
      NewDisplayShifts(s.ds, d, IndexOf(s.ds, s.starting.value));
    }
  }

  lemma NewDisplayInv(s: Daemon, info: Info)
    requires Inv(s)
    requires forall i :: 0 <= i < |s.ds| && s.ds[i].info.name == info.name ==> Condemned(s.ds[i])
    ensures Inv(NewDisplay(s, info))
  {
    var s' := NewDisplay(s, info);
    var d := Fresh(info.(id := s.nextId));
    assert s'.ds == [d] + s.ds;
    NewDisplayLists(s.ds, s'.ds);
    NewDisplaySlot(s, d);
    assert SlotOk(s');
    forall i | 0 <= i < |s'.ds| ensures s'.ds[i].Id() < s'.nextId && StatusOk(s'.ds[i]) {
      if i > 0 { assert s'.ds[i] == s.ds[i-1]; }
    }
  }

  lemma NewDisplayLists(ds: seq<Display>, ds': seq<Display>)
    requires |ds'| == |ds| + 1 && forall i :: 1 <= i < |ds'| ==> ds'[i] == ds[i-1]
    requires UniqueIds(ds) && DistinctPids(ds) && HeadMost(ds)
    requires ds'[0].pid == NONE && ds'[0].serverPid == NONE
    requires forall i :: 0 <= i < |ds| ==> ds[i].Id() != ds'[0].Id()
    requires forall i :: 0 <= i < |ds| && ds[i].info.name == ds'[0].info.name ==> Condemned(ds[i])
    ensures UniqueIds(ds') && DistinctPids(ds') && HeadMost(ds')
  {
    forall i, j | 0 <= i < j < |ds'|
      ensures ds'[i].Id() != ds'[j].Id()
      ensures ds'[i].info.name == ds'[j].info.name ==> Condemned(ds'[j])
      ensures ds'[i].pid != NONE ==> ds'[i].pid != ds'[j].pid && ds'[i].pid != ds'[j].serverPid
      ensures ds'[i].serverPid != NONE ==> ds'[i].serverPid != ds'[j].pid && ds'[i].serverPid != ds'[j].serverPid
    {
      assert ds'[j] == ds[j-1];
      if i > 0 { assert ds'[i] == ds[i-1]; }
    }
    forall i | 0 <= i < |ds'|
      ensures ds'[i].pid != NONE ==> ds'[i].pid != ds'[i].serverPid
      ensures RealPid(ds'[i].pid) && RealPid(ds'[i].serverPid)
    {
      if i > 0 { assert ds'[i] == ds[i-1]; }
    }
  }

  /** Stopping the display of that name leaves only condemned ones under it. */
  lemma StopNamedOk(s: Daemon, name: string)
    requires Inv(s)
    ensures var s' := StopNamed(s, name);
      && Inv(s') && s'.nextId == s.nextId && s'.stopping == s.stopping
      && forall i :: 0 <= i < |s'.ds| && s'.ds[i].info.name == name ==> Condemned(s'.ds[i])
  {
    var r := FindByName(s.ds, name);
    if r.Some? {
      var k := r.value;
      var s' := StopNamed(s, name);
      StopAtInv(s, k);
      FocusAtOk(s, k);
      StopAtFacts(s, k, true);
      forall i | 0 <= i < |s'.ds| && s'.ds[i].info.name == name ensures Condemned(s'.ds[i]) {
        ByPosition(s'.ds, i);
        var x := s'.ds[i].Id();
        var j := IndexOf(s.ds, x);
        assert j < k || j == k || k < j;
      }
    }
  }

  lemma NewDisplayGets(s: Daemon, info: Info)
    requires UniqueIds(s.ds) && UniqueIds(NewDisplay(s, info).ds)
    ensures var ds' := NewDisplay(s, info).ds;
      && Has(ds', s.nextId) && Get(ds', s.nextId) == Fresh(info.(id := s.nextId))
      && (forall x :: Has(ds', x) && x != s.nextId ==> Has(s.ds, x) && Get(ds', x) == Get(s.ds, x))
      && (forall x :: Has(s.ds, x) ==> Has(ds', x) && x != s.nextId)
  {
    var ds' := NewDisplay(s, info).ds;
    assert ds'[0] == Fresh(info.(id := s.nextId));
    ByPosition(ds', 0);
    forall x | Has(ds', x) && x != s.nextId ensures Has(s.ds, x) && Get(ds', x) == Get(s.ds, x) {
      var i := IndexOf(ds', x);
      assert ds'[i] == s.ds[i-1];
      ByPosition(s.ds, i - 1);
    }
    forall x | Has(s.ds, x) ensures Has(ds', x) && x != s.nextId {
      var i := IndexOf(s.ds, x);
      assert ds'[i+1] == s.ds[i];
      ByPosition(ds', i + 1);
    }
  }

  lemma TargetAimed(s: Daemon, e: Event)
    requires Possible(s, e) && Target(s, e).Some?
    ensures Aimed(FocusAt(s, Target(s, e).value), GlobalsOf(s), e)
  {}

  lemma TargetInv(s: Daemon, e: Event)
    requires Inv(s) && Possible(s, e) && Target(s, e).Some?
    ensures Inv(Step(s, e))
  {
    var k := Target(s, e).value;
    FocusAtOk(s, k);
    TargetAimed(s, e);
    ActOk(FocusAt(s, k), GlobalsOf(s), e);
    PutBackInv(s, k, Act(FocusAt(s, k), GlobalsOf(s), e), ForkOf(e));
  }

  lemma AdmitInv(s: Daemon, info: Info)
    requires Inv(s)
    ensures Inv(NewDisplay(StopNamed(s, info.name), info))
  {
    StopNamedOk(s, info.name);
    NewDisplayInv(StopNamed(s, info.name), info);
  }

  lemma StoppenInv(s: Daemon, force: bool)
    requires Inv(s)
    ensures Inv(StoppenStep(s, force))
  {
    StopEachInv(s, Ids(s.ds), force);
  }

  /**
   * processDPipe clears startingServer on D_XConnOk without asking which display
   * sent it. That keeps the launch slot consistent exactly when no launch is
   * under way.
   */
  lemma XConnOkExactly(s: Daemon)
    requires Inv(s)
    ensures Inv(Step(s, XConnOk)) <==> !LaunchInProgress(s)
  {
    if LaunchInProgress(s) {
      var k := IndexOf(s.ds, s.starting.value);
      assert Launching(s.ds[k]) && Step(s, XConnOk).ds[k] == s.ds[k];
    }
  }

  /** Events that change no display. */
  lemma QuietInv(s: Daemon, e: Event)
    requires Inv(s) && Target(s, e).None? && !e.Stoppen? && !e.Admit? && !e.XConnOk?
    requires !(e.ManageCmd? && Manageable(s.ds, e.name))
    ensures Inv(Step(s, e))
  {
    var s' := Step(s, e);
    assert s' == s.(stopping := s'.stopping, sdDue := s'.sdDue, now := s'.now);
  }

  /**
   * Every event the environment can produce keeps the invariant, but for one: a
   * D_XConnOk report during a launch always breaks it.
   */
  lemma StepInv(s: Daemon, e: Event)
    requires Inv(s) && Possible(s, e)
    ensures Inv(Step(s, e)) <==> Tame(s, e)
  {
    hide Act, PutBack, StopEach, Inv;
    if Target(s, e).Some? {
      TargetInv(s, e);
    } else if e.Stoppen? {
      StoppenInv(s, e.force);
    } else if e.ManageCmd? && Manageable(s.ds, e.name) {
      NewDisplayInv(s, CommandInfo(e.name, e.cfg));
    } else if e.Admit? {
      AdmitInv(s, e.info);
    } else if e.XConnOk? {
      XConnOkExactly(s);
    } else {
      QuietInv(s, e);
    }
  }

  /** The invariant is not lost between the two states of an event. */
  ghost predicate Keeps(s: Daemon, e: Event, s': Daemon) {
    Inv(s) && Possible(s, e) && Tame(s, e) ==> Inv(s')
  }

  lemma StepKeeps(s: Daemon, e: Event)
    ensures Keeps(s, e, Step(s, e))
  {
    if Inv(s) && Possible(s, e) { StepInv(s, e); }
  }

  lemma InitialInv(s: Daemon)
    requires Initial(s)
    ensures Inv(s)
  {}

  // ----- Whole runs -----

  function Run(s: Daemon, es: seq<Event>): Daemon
    decreases |es|
  {
    if es == [] then s else Run(Step(s, es[0]), es[1..])
  }

  ghost predicate PossibleRun(s: Daemon, es: seq<Event>)
    decreases |es|
  {
    es == [] || (Possible(s, es[0]) && PossibleRun(Step(s, es[0]), es[1..]))
  }

  ghost predicate TameRun(s: Daemon, es: seq<Event>)
    decreases |es|
  {
    es == [] || (Tame(s, es[0]) && TameRun(Step(s, es[0]), es[1..]))
  }

  /** The invariant holds after every step. */
  ghost predicate InvRun(s: Daemon, es: seq<Event>)
    decreases |es|
  {
    Inv(s) && (es == [] || InvRun(Step(s, es[0]), es[1..]))
  }

  /** A run keeps the invariant throughout exactly if no D_XConnOk report comes during a launch. */
  lemma {:induction false} InvRunExactly(s: Daemon, es: seq<Event>)
    requires Inv(s) && PossibleRun(s, es)
    ensures InvRun(s, es) <==> TameRun(s, es)
    decreases |es|
  {
    if es != [] {
      StepInv(s, es[0]);
      if Tame(s, es[0]) { InvRunExactly(Step(s, es[0]), es[1..]); }
    }
  }

  lemma {:induction false} RunInv(s: Daemon, es: seq<Event>)
    requires Inv(s) && PossibleRun(s, es) && TameRun(s, es)
    ensures Inv(Run(s, es))
    decreases |es|
  {
    if es != [] {
      StepInv(s, es[0]);
      RunInv(Step(s, es[0]), es[1..]);
    }
  }

  /** From any start-up state, however long the daemon runs. */
  lemma ReachableInv(s0: Daemon, es: seq<Event>)
    requires Initial(s0) && PossibleRun(s0, es)
    ensures InvRun(s0, es) <==> TameRun(s0, es)
    ensures TameRun(s0, es) ==> Inv(Run(s0, es))
  {
    InitialInv(s0);
    InvRunExactly(s0, es);
    if TameRun(s0, es) { RunInv(s0, es); }
  }
}

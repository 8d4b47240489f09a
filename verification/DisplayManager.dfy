/**
 * The daemon's records and globals as they are in memory, with the functions of
 * dm.c, server.c, dpylist.c and the display commands of ctrl.c that change them.
 *
 * Each method is proved to do to its display and to the launch slot what the
 * function of the same name in `Lifecycle` says, and each event handler to be
 * the corresponding step of the daemon.
 */
module DisplayManager {
  import opened Wrappers
  import opened Displays
  import opened Lifecycle
  import LifecycleInv

  /** struct display */
  class DisplayRec {
    const info: Info
    var status: Status
    var zstatus: EndState
    var pid: int
    var serverPid: int
    var serverStatus: ServerStatus
    var startTries: nat
    var lastStart: int
    var userSess: int

    constructor (info: Info)
      ensures View() == Fresh(info) && this.info == info
    {
      this.info := info;
      status, zstatus, pid, serverPid := NotRunning, DsRestart, NONE, NONE;
      serverStatus, startTries, lastStart, userSess := Ignore, 0, 0, NONE;
    }

    ghost function View(): Display
      reads this
    {
      Display(info, status, zstatus, pid, serverPid, serverStatus, startTries, lastStart, userSess)
    }
  }

  ghost function Views(ds: seq<DisplayRec>): (r: seq<Display>)
    reads ds
    ensures |r| == |ds| && forall i :: 0 <= i < |ds| ==> r[i] == ds[i].View()
  {
    seq(|ds|, i requires 0 <= i < |ds| reads ds => ds[i].View())
  }

  /** Records are told apart by their ids. */
  ghost predicate Distinct(ds: seq<DisplayRec>) {
    forall i, j :: 0 <= i < j < |ds| ==> ds[i].info.id != ds[j].info.id
  }

  class Manager {
    var displays: seq<DisplayRec>
    var startingServer: DisplayRec?
    var serverTimeout: Option<int>
    var stopping: bool
    var sdDue: bool
    var now: int
    var nextId: nat

    ghost predicate Valid()
      reads this
    {
      && Distinct(displays)
      && (forall i :: 0 <= i < |displays| ==> displays[i].info.id < nextId)
      && (startingServer != null ==> startingServer in displays)
    }

    ghost function StartingId(): Option<nat>
      reads this
    {
      if startingServer == null then None else Some(startingServer.info.id)
    }

    ghost function State(): Daemon
      reads this, displays
    {
      Daemon(Views(displays), StartingId(), serverTimeout, stopping, sdDue, now, nextId, false)
    }

    ghost function G(): Globals
      reads this
    {
      Globals(now, stopping, sdDue)
    }

    ghost function Foc(d: DisplayRec): Focus
      reads this, d
    {
      Focus(d.View(), d !in displays, StartingId(), serverTimeout)
    }

    ghost function Pos(d: DisplayRec): (k: nat)
      requires d in displays
      reads this
      ensures k < |displays| && displays[k] == d
    {
      var k: nat :| k < |displays| && displays[k] == d; k
    }

    /** Only d may have left the list. */
    twostate predicate ListKept(d: DisplayRec)
      requires old(d in displays)
      reads this
    {
      var k := old(Pos(d));
      displays == old(displays) || displays == old(displays)[..k] + old(displays)[k+1..]
    }

    constructor (now: int)
      ensures Valid() && State() == Daemon([], None, None, false, false, now, 0, false)
    {
      displays, startingServer, serverTimeout := [], null, None;
      stopping, sdDue, this.now, nextId := false, false, now, 0;
    }

    // ----- dpylist.c -----

    method FindDisplayByPid(pid: int) returns (d: DisplayRec?)
      requires Valid()
      ensures d == null <==> FindByPid(State().ds, pid).None?
      ensures d != null ==> d in displays && FindByPid(State().ds, pid) == Some(Pos(d))
    {
      var i := 0;
      while i < |displays|
        invariant 0 <= i <= |displays|
        invariant forall j :: 0 <= j < i ==> displays[j].pid != pid
      {
        if displays[i].pid == pid {
          FirstPid(Views(displays), pid, i);
          return displays[i];
        }
        i := i + 1;
      }
      d := null;
    }

    method FindDisplayByServerPid(pid: int) returns (d: DisplayRec?)
      requires Valid()
      ensures d == null <==> FindByServerPid(State().ds, pid).None?
      ensures d != null ==> d in displays && FindByServerPid(State().ds, pid) == Some(Pos(d))
    {
      var i := 0;
      while i < |displays|
        invariant 0 <= i <= |displays|
        invariant forall j :: 0 <= j < i ==> displays[j].serverPid != pid
      {
        if displays[i].serverPid == pid {
          FirstServerPid(Views(displays), pid, i);
          return displays[i];
        }
        i := i + 1;
      }
      d := null;
    }

    method FindDisplayByName(name: string) returns (d: DisplayRec?)
      requires Valid()
      ensures d == null <==> FindByName(State().ds, name).None?
      ensures d != null ==> d in displays && FindByName(State().ds, name) == Some(Pos(d))
    {
      var i := 0;
      while i < |displays|
        invariant 0 <= i <= |displays|
        invariant forall j :: 0 <= j < i ==> displays[j].info.name != name
      {
        if displays[i].info.name == name { return displays[i]; }
        i := i + 1;
      }
      d := null;
    }

    method AnyRunningDisplays() returns (b: bool)
      requires Valid()
      ensures b <==> AnyRunning(State().ds)
    {
      var i := 0;
      while i < |displays|
        invariant 0 <= i <= |displays|
        invariant forall j :: 0 <= j < i ==> Passive(State().ds[j])
      {
        if displays[i].status != NotRunning && displays[i].status != Reserve {
          assert !Passive(State().ds[i]);
          return true;
        }
        i := i + 1;
      }
      b := false;
    }

    method RemoveDisplay(d: DisplayRec)
      requires Valid() && d in displays && startingServer != d
      modifies this`displays
      ensures Valid() && d !in displays && ListKept(d)
    {
      var i := 0;
      while displays[i] != d
        invariant 0 <= i < |displays| && d !in displays[..i]
        invariant displays == old(displays)
        decreases |displays| - i
      {
        assert displays[..i+1] == displays[..i] + [displays[i]];
        assert displays[..|displays|] == displays;
        i := i + 1;
      }
      assert i == Pos(d);
      displays := displays[..i] + displays[i+1..];
    }

    method NewDisplay(info: Info) returns (d: DisplayRec)
      requires Valid() && info.id == nextId
      modifies this`displays, this`nextId
      ensures Valid() && fresh(d) && displays == [d] + old(displays)
      ensures d.info == info
      ensures State() == Lifecycle.NewDisplay(old(State()), info)
    {
      d := new DisplayRec(info);
      displays := [d] + displays;
      nextId := nextId + 1;
      assert Views(displays) == [d.View()] + old(Views(displays));
    }

    // ----- server.c and dm.c, one display at a time -----

    method AbortStartServer(d: DisplayRec)
      requires Valid() && d in displays
      modifies this`startingServer, this`serverTimeout, d
      ensures Valid() && Foc(d) == Lifecycle.AbortStartServer(old(Foc(d))) && startingServer != d
    {
      SameRec(d);
      if startingServer == d {
        if d.serverStatus != Ignore {
          d.serverStatus := Ignore;
          serverTimeout := None;
        }
        startingServer := null;
      }
    }

    method StartRemoteLogin(d: DisplayRec, fork: int)
      requires Valid() && d in displays
      modifies d
      ensures Foc(d) == Lifecycle.StartRemoteLogin(old(Foc(d)), fork)
    {
      d.serverPid := fork;
      if fork == NONE {
        d.status := NotRunning;
        return;
      }
      d.status := RemoteLogin;
    }

    method RStopDisplay(d: DisplayRec, end: EndState, fork: int)
      requires Valid() && d in displays
      modifies this`startingServer, this`serverTimeout, this`displays, d
      ensures Valid() && ListKept(d) && Foc(d) == Lifecycle.RStopDisplay(old(Foc(d)), end, fork)
      ensures startingServer != d
    {
      AbortStartServer(d);
      if d.serverPid != NONE || d.pid != NONE {
        d.status := Zombie;
        d.zstatus := end;
      } else if end == DsReserve {
        d.status := Reserve;
      } else if end == DsRemote {
        StartRemoteLogin(d, fork);
      } else {
        RemoveDisplay(d);
      }
    }

    method StopDisplay(d: DisplayRec)
      requires Valid() && d in displays
      modifies this`startingServer, this`serverTimeout, this`displays, d
      ensures Valid() && ListKept(d) && Foc(d) == Lifecycle.StopDisplay(old(Foc(d)))
    {
      RStopDisplay(d, DsRemove, NONE);
    }

    method StartServerFailed()
      requires Valid() && startingServer != null
      modifies this`startingServer, this`serverTimeout, this`displays, startingServer
      ensures Valid() && var d := old(startingServer);
        && ListKept(d) && Foc(d) == Lifecycle.StartServerFailed(old(Foc(startingServer)), G())
    {
      var d := startingServer;
      if d.info.cfg.serverAttempts == 0 || d.startTries < d.info.cfg.serverAttempts {
        d.serverStatus := Pausing;
        serverTimeout := Some(d.info.cfg.openDelay + now);
      } else {
        d.serverStatus := Ignore;
        serverTimeout := None;
        startingServer := null;
        StopDisplay(d);
      }
    }

    method StartServerOnce(fork: int)
      requires Valid() && startingServer != null
      modifies this`startingServer, this`serverTimeout, this`displays, startingServer
      ensures Valid() && var d := old(startingServer);
        && ListKept(d) && Foc(d) == Lifecycle.StartServerOnce(old(Foc(startingServer)), G(), fork)
    {
      hide Lifecycle.StartServerFailed, Views, Pos;
      var d := startingServer;
      d.startTries := d.startTries + 1;
      d.serverStatus := Starting;
      d.serverPid := fork;
      if fork == NONE {
        StartServerFailed();
      } else {
        serverTimeout := Some(d.info.cfg.serverTimeout + now);
      }
    }

    method StartServer(d: DisplayRec, fork: int)
      requires Valid() && d in displays
      modifies this`startingServer, this`serverTimeout, this`displays, d
      ensures Valid() && ListKept(d) && Foc(d) == Lifecycle.StartServer(old(Foc(d)), G(), fork)
    {
      startingServer := d;
      d.startTries := 0;
      StartServerOnce(fork);
    }

    method StartDisplayP2(d: DisplayRec, fork: int)
      requires Valid() && d in displays
      modifies d
      ensures Foc(d) == Lifecycle.StartDisplayP2(old(Foc(d)), G(), fork)
    {
      d.pid := fork;
      if fork == NONE {
        d.status := NotRunning;
      } else {
        d.lastStart := now;
      }
    }

    method StartServerSuccess(fork: int)
      requires Valid() && startingServer != null
      modifies this`serverTimeout, startingServer
      ensures Valid() && Foc(startingServer) == Lifecycle.StartServerSuccess(old(Foc(startingServer)), G(), fork)
    {
      var d := startingServer;
      d.serverStatus := Ignore;
      serverTimeout := None;
      StartDisplayP2(d, fork);
    }

    method StartServerTimeout(fork: int)
      requires Valid() && startingServer != null
      modifies this`startingServer, this`serverTimeout, this`displays, startingServer
      ensures Valid() && var d := old(startingServer);
        && ListKept(d) && Foc(d) == Lifecycle.StartServerTimeout(old(Foc(startingServer)), G(), fork)
    {
      var d := startingServer;
      match d.serverStatus {
        case Ignore =>
        case Awaiting =>
        case Starting =>
          d.serverStatus := Terminated;
          serverTimeout := Some(d.info.cfg.serverTimeout + now);
        case Terminated =>
          d.serverStatus := Killed;
          serverTimeout := Some(10 + now);
        case Killed => StartServerFailed();
        case Pausing => StartServerOnce(fork);
      }
    }

    method StartDisplay(d: DisplayRec, fork: int)
      requires Valid() && d in displays
      modifies this`startingServer, this`serverTimeout, this`displays, d
      ensures Valid() && ListKept(d) && Foc(d) == Lifecycle.StartDisplay(old(Foc(d)), G(), fork)
      ensures !stopping ==> d in displays
    {
      if stopping {
        StopDisplay(d);
        return;
      }
      d.status := Running;
      if d.info.location == Local && d.serverPid == NONE {
        d.serverStatus := Awaiting;
        return;
      }
      StartDisplayP2(d, fork);
    }

    /** startDisplays calls this only while the daemon is not stopping. */
    method KickDisplay(d: DisplayRec, fork: int)
      requires Valid() && d in displays && !stopping
      modifies this`startingServer, this`serverTimeout, this`displays, d
      ensures Valid() && ListKept(d) && Foc(d) == Lifecycle.KickDisplay(old(Foc(d)), G(), fork)
    {
      hide Lifecycle.StartDisplay, Lifecycle.StartServer, Pos, Views;
      SameRec(d);
      if d.status == NotRunning {
        StartDisplay(d, fork);
      }
      SameRec(d);
      if d.serverStatus == Awaiting && startingServer == null {
        StartServer(d, fork);
      }
    }

    /** The last branch of exitDisplay. */
    method RestartDisplay(d: DisplayRec, cmd: ServerCmd)
      requires Valid() && d in displays
      modifies this`startingServer, this`serverTimeout, this`displays, d
      ensures Valid() && ListKept(d) && Foc(d) == Lifecycle.RestartDisplay(old(Foc(d)), G(), cmd)
    {
      hide Lifecycle.StopDisplay, Pos;
      if cmd == XsRetry {
        if d.info.location == Local {
          if now - d.lastStart < 120 {
            StopDisplay(d);
            return;
          }
        } else {
          d.startTries := d.startTries + 1;
          if d.startTries > d.info.cfg.startAttempts {
            StopDisplay(d);
            return;
          }
        }
      } else {
        d.startTries := 0;
      }
      if d.serverPid != NONE && (cmd != XsKeep || d.info.cfg.terminateServer) {
        d.status := Phoenix;
      } else {
        d.status := NotRunning;
      }
    }

    /** The part of exitDisplay for displays that have not been stopped. */
    method EndSession(d: DisplayRec, end: EndState, cmd: ServerCmd, fork: int)
      requires Valid() && d in displays
      modifies this`startingServer, this`serverTimeout, this`displays, d
      ensures Valid() && ListKept(d)
      ensures Foc(d) == Lifecycle.EndSession(old(Foc(d)), G(), end, cmd, fork)
    {
      if stopping {
        StopDisplay(d);
      } else if end != DsRestart || d.info.lifetime == Transient {
        RStopDisplay(d, end, fork);
      } else {
        RestartDisplay(d, cmd);
      }
    }

    method ExitDisplay(d: DisplayRec, endState: EndState, serverCmd: ServerCmd, fork: int)
      requires Valid() && d in displays
      modifies this`startingServer, this`serverTimeout, this`displays, d
      ensures Valid() && ListKept(d)
      ensures Foc(d) == Lifecycle.ExitDisplay(old(Foc(d)), G(), endState, serverCmd, fork)
    {
      hide Lifecycle.RStopDisplay, Lifecycle.EndSession, Pos, Views, Manager.Valid, Distinct;
      var end, cmd := endState, serverCmd;
      if d.status == Raiser {
        cmd := XsKeep;
      }
      d.userSess := NONE;
      if sdDue {
        end := DsRemove;
      }
      if d.status == Zombie {
        RStopDisplay(d, d.zstatus, fork);
      } else {
        EndSession(d, end, cmd, fork);
      }
    }

    method ReapSession(d: DisplayRec, exit: Exit, fork: int)
      requires Valid() && d in displays
      modifies this`startingServer, this`serverTimeout, this`displays, d
      ensures Valid() && ListKept(d)
      ensures Foc(d) == Lifecycle.ReapSession(old(Foc(d)), G(), exit, fork)
    {
      d.pid := NONE;
      match exit {
        case ExRemote => ExitDisplay(d, DsRemote, XsKeep, fork);
        case ExNormal =>
          if d.info.lifetime == ReserveOnly {
            ExitDisplay(d, DsReserve, XsKeep, fork);
          } else {
            ExitDisplay(d, DsRestart, XsKeep, fork);
          }
        case ExReserve => ExitDisplay(d, DsReserve, XsKeep, fork);
        case ExOpenFailed => ExitDisplay(d, DsRestart, XsRetry, fork);
        case ExSigterm => ExitDisplay(d, DsRestart, XsRetry, fork);
        case ExAlReserver => ExitDisplay(d, DsRestart, XsRestart, fork);
        case ExReserver => ExitDisplay(d, DsRestart, XsRestart, fork);
        case ExUnmanage => ExitDisplay(d, DsRemove, XsKeep, fork);
        case ExOther => ExitDisplay(d, DsRemove, XsKeep, fork);
      }
    }

    method ReapServer(d: DisplayRec, fork: int)
      requires Valid() && d in displays
      modifies this`startingServer, this`serverTimeout, this`displays, d
      ensures Valid() && ListKept(d)
      ensures Foc(d) == Lifecycle.ReapServer(old(Foc(d)), G(), fork)
    {
      d.serverPid := NONE;
      SameRec(d);
      match d.status {
        case Zombie => RStopDisplay(d, d.zstatus, fork);
        case Phoenix => d.status := NotRunning;
        case RemoteLogin => d.status := if d.info.lifetime == ReserveOnly then Reserve else NotRunning;
        case Raiser =>
        case Running =>
          if startingServer == d && d.serverStatus != Ignore {
            StartServerFailed();
          }
        case NotRunning =>
        case Reserve =>
      }
    }

    // ----- Events -----

    /** A change to one record and the launch slot is a step with the focus on that record. */
    twostate lemma Refocused(d: DisplayRec)
      requires old(Valid()) && old(d in displays) && ListKept(d)
      requires forall x :: x in old(displays) && x != d ==> unchanged(x)
      requires unchanged(this`stopping) && unchanged(this`sdDue) && unchanged(this`now) && unchanged(this`nextId)
      ensures State() == PutBack(old(State()), old(Pos(d)), Foc(d))
      ensures old(Foc(d)) == FocusAt(old(State()), old(Pos(d)))
    {
      var k := old(Pos(d));
      var vs, vs' := old(Views(displays)), Views(displays);
      forall i | 0 <= i < |old(displays)| && i != k ensures old(displays)[i] != d {}
      if d in displays {
        assert displays == old(displays) || d !in displays;
        forall i | 0 <= i < |displays| ensures vs'[i] == vs[k := d.View()][i] {
          if i != k { assert old(displays)[i] in old(displays); }
        }
        assert vs' == vs[k := d.View()];
      } else {
        forall i | 0 <= i < |displays| ensures vs'[i] == Without(vs, k)[i] {
          assert displays[i] == old(displays)[if i < k then i else i + 1];
          assert displays[i] in old(displays);
        }
        assert vs' == Without(vs, k);
      }
    }

    lemma SameRec(d: DisplayRec)
      requires Valid() && d in displays
      ensures startingServer == d <==> StartingId() == Some(d.info.id)
      ensures IndexOf(Views(displays), d.info.id) == Pos(d)
    {
      var k := Pos(d);
      var i := IndexOf(Views(displays), d.info.id);
      assert Views(displays)[k].Id() == d.info.id;
      assert i <= k;
    }

    /** The event aims at this display. */
    lemma At(d: DisplayRec, e: Event)
      requires Valid() && d in displays && e in {Event.StopOne(d.info.id), Event.SuicideCmd(d.info.id)}
      ensures Target(State(), e) == Some(Pos(d))
    {
      SameRec(d);
    }

    /** No record is in the list that was not there before, unless it is new. */
    twostate predicate Grown()
      reads this
    {
      forall x :: x in displays ==> x in old(displays) || fresh(x)
    }

    /** One display of startDisplays, which the main loop calls unless it is stopping. */
    method Kick(d: DisplayRec, fork: int)
      requires Valid() && d in displays
      modifies this`startingServer, this`serverTimeout, this`displays, d
      ensures Valid() && Grown() && State() == Step(old(State()), Event.Kick(d.info.id, fork))
      ensures LifecycleInv.Keeps(old(State()), Event.Kick(d.info.id, fork), State())
    {
      hide Views, PutBack, Lifecycle.KickDisplay, LifecycleInv.Keeps;
      ghost var e := Event.Kick(d.info.id, fork);
      SameRec(d);
      LifecycleInv.StepKeeps(State(), e);
      if !stopping {
        KickDisplay(d, fork);
        Refocused(d);
        StepAt(old(State()), e, old(Pos(d)));
      }
    }

    method SessionReaped(d: DisplayRec, exit: Exit, fork: int)
      requires Valid() && d in displays
      modifies this`startingServer, this`serverTimeout, this`displays, d
      ensures Valid() && Grown()
      ensures State() == PutBack(old(State()), old(Pos(d)), Lifecycle.ReapSession(old(Foc(d)), G(), exit, fork))
      ensures old(Foc(d)) == FocusAt(old(State()), old(Pos(d))) && G() == GlobalsOf(old(State()))
    {
      hide Lifecycle.ReapSession, Views, PutBack;
      ReapSession(d, exit, fork);
      Refocused(d);
    }

    method ServerReaped(d: DisplayRec, fork: int)
      requires Valid() && d in displays
      modifies this`startingServer, this`serverTimeout, this`displays, d
      ensures Valid() && Grown()
      ensures State() == PutBack(old(State()), old(Pos(d)), Lifecycle.ReapServer(old(Foc(d)), G(), fork))
      ensures old(Foc(d)) == FocusAt(old(State()), old(Pos(d))) && G() == GlobalsOf(old(State()))
    {
      hide Lifecycle.ReapServer, Views, PutBack;
      ReapServer(d, fork);
      Refocused(d);
    }

    /** One round of the loop in reapChildren. */
    method Reap(pid: int, exit: Exit, fork: int)
      requires Valid() && pid > 0
      modifies this`startingServer, this`serverTimeout, this`displays, displays
      ensures Valid() && Grown() && State() == Step(old(State()), Event.Reap(pid, exit, fork))
      ensures LifecycleInv.Keeps(old(State()), Event.Reap(pid, exit, fork), State())
    {
      hide Views, FindByPid, FindByServerPid, Step, PutBack, FocusAt, GlobalsOf;
      hide Lifecycle.ReapSession, Lifecycle.ReapServer, LifecycleInv.Keeps;
      LifecycleInv.StepKeeps(State(), Event.Reap(pid, exit, fork));
      ReapAt(State(), pid, exit, fork);
      var d := FindDisplayByPid(pid);
      if d != null {
        SessionReaped(d, exit, fork);
      } else {
        d := FindDisplayByServerPid(pid);
        if d != null {
          ServerReaped(d, fork);
        }
      }
    }

    method ServerTimedOut(fork: int)
      requires Valid() && startingServer != null
      modifies this`startingServer, this`serverTimeout, this`displays, startingServer
      ensures Valid() && Grown() && var d := old(startingServer);
        && State() == PutBack(old(State()), old(Pos(d)),
                              Lifecycle.StartServerTimeout(old(Foc(d)).(timer := None), G(), fork))
        && old(Foc(d)) == FocusAt(old(State()), old(Pos(d))) && G() == GlobalsOf(old(State()))
    {
      hide Lifecycle.StartServerTimeout, Views, PutBack;
      var d := startingServer;
      serverTimeout := None;
      StartServerTimeout(fork);
      Refocused(d);
    }

    /** The main loop's look at the server timer; that startingServer is set when it is due is `SlotOk`. */
    method ServerTimer(fork: int)
      requires Valid() && (TimerDue(State()) ==> startingServer != null)
      modifies this`startingServer, this`serverTimeout, this`displays, displays
      ensures Valid() && Grown() && State() == Step(old(State()), Event.ServerTimer(fork))
      ensures LifecycleInv.Keeps(old(State()), Event.ServerTimer(fork), State())
    {
      hide Views, Step, PutBack, FocusAt, GlobalsOf, Lifecycle.StartServerTimeout, LifecycleInv.Keeps;
      LifecycleInv.StepKeeps(State(), Event.ServerTimer(fork));
      if startingServer != null { SameRec(startingServer); }
      TimerAt(State(), fork);
      if serverTimeout.Some? && now >= serverTimeout.value {
        ServerTimedOut(fork);
      }
    }

    /** SIGUSR1 */
    method ServerReady(fork: int)
      requires Valid()
      modifies this`serverTimeout, displays
      ensures Valid() && Grown() && State() == Step(old(State()), Event.ServerReady(fork))
      ensures LifecycleInv.Keeps(old(State()), Event.ServerReady(fork), State())
    {
      hide Views, PutBack, Lifecycle.StartServerSuccess, LifecycleInv.Keeps;
      ghost var e := Event.ServerReady(fork);
      LifecycleInv.StepKeeps(State(), e);
      if startingServer != null {
        SameRec(startingServer);
        if startingServer.serverStatus == Starting {
          StartServerSuccess(fork);
          Refocused(startingServer);
          StepAt(old(State()), e, old(Pos(startingServer)));
        }
      }
    }

    /** D_XConnOk in processDPipe */
    method XConnOk()
      requires Valid()
      modifies this`startingServer
      ensures Valid() && State() == Step(old(State()), Event.XConnOk)
      ensures LifecycleInv.Keeps(old(State()), Event.XConnOk, State())
    {
      LifecycleInv.StepKeeps(State(), Event.XConnOk);
      startingServer := null;
    }

    method StopOne(d: DisplayRec)
      requires Valid() && d in displays
      modifies this`startingServer, this`serverTimeout, this`displays, d
      ensures Valid() && Grown() && State() == Step(old(State()), Event.StopOne(d.info.id))
      ensures State() == PutBack(old(State()), old(Pos(d)), Lifecycle.StopDisplay(old(Foc(d))))
      ensures LifecycleInv.Keeps(old(State()), Event.StopOne(d.info.id), State())
    {
      hide Views, PutBack, Lifecycle.StopDisplay, LifecycleInv.Keeps;
      At(d, Event.StopOne(d.info.id));
      LifecycleInv.StepKeeps(State(), Event.StopOne(d.info.id));
      StopDisplay(d);
      Refocused(d);
      StepAt(old(State()), Event.StopOne(d.info.id), old(Pos(d)));
    }

    /** stopDisplay or stopInactiveDisplay, as called by stoppen. */
    method StopIf(d: DisplayRec, force: bool)
      requires Valid() && d in displays
      modifies this`startingServer, this`serverTimeout, this`displays, d
      ensures Valid() && State() == Lifecycle.StopIf(old(State()), d.info.id, force)
      ensures forall x :: x in old(displays) && x != d ==> x in displays
      ensures forall x :: x in displays ==> x in old(displays)
    {
      SameRec(d);
      if force || (d.status != RemoteLogin && d.userSess < 0) {
        StopDisplay(d);
        Refocused(d);
      }
    }

    /** forEachDisplay fetches the next record before it calls the function. */
    method StopEachDisplay(force: bool)
      requires Valid()
      modifies this`startingServer, this`serverTimeout, this`displays, displays
      ensures Valid() && Grown() && State() == StopEach(old(State()), Ids(old(State()).ds), force)
    {
      hide Lifecycle.StopIf, Lifecycle.StopEach, Views, Pos;
      var all := displays;
      ghost var ids := Ids(State().ds);
      assert ids[0..] == ids;
      for i := 0 to |all|
        invariant Valid()
        invariant forall j :: i <= j < |all| ==> all[j] in displays
        invariant forall x :: x in displays ==> x in all
        invariant |ids| == |all| && forall j :: 0 <= j < |all| ==> ids[j] == all[j].info.id
        invariant StopEach(State(), ids[i..], force) == StopEach(old(State()), ids, force)
      {
        var d := all[i];
        StopEachFrom(State(), ids, i, force);
        StopIf(d, force);
      }
      StopEachDone(State(), ids, force);
    }

    method Stoppen(force: bool)
      requires Valid()
      modifies this`startingServer, this`serverTimeout, this`displays, this`stopping, displays
      ensures Valid() && Grown() && State() == Step(old(State()), Event.Stoppen(force))
      ensures LifecycleInv.Keeps(old(State()), Event.Stoppen(force), State())
    {
      hide Lifecycle.StopEach, Ids, Views, LifecycleInv.Keeps;
      LifecycleInv.StepKeeps(State(), Event.Stoppen(force));
      StopEachDisplay(force);
      stopping := true;
    }

    method CancelShutdown()
      requires Valid()
      modifies this`stopping, this`sdDue
      ensures Valid() && State() == Step(old(State()), Event.CancelShutdown)
      ensures LifecycleInv.Keeps(old(State()), Event.CancelShutdown, State())
    {
      hide Views, LifecycleInv.Keeps;
      LifecycleInv.StepKeeps(State(), Event.CancelShutdown);
      stopping, sdDue := false, false;
    }

    /** D_User and D_UnUser in processDPipe */
    method UserSession(d: DisplayRec, uid: int)
      requires Valid() && d in displays
      modifies d
      ensures Valid() && Grown() && State() == Step(old(State()), Event.UserSession(d.info.id, uid))
    {
      hide Views, PutBack;
      SameRec(d);
      ghost var e := Event.UserSession(d.info.id, uid);
      assert Target(State(), e) == Some(Pos(d));
      d.userSess := uid;
      Refocused(d);
      StepAt(old(State()), e, old(Pos(d)));
    }

    method ShutdownDue(due: bool)
      requires Valid()
      modifies this`sdDue
      ensures Valid() && State() == Step(old(State()), Event.ShutdownDue(due))
    {
      sdDue := due;
    }

    method UpdateNow(time: int)
      requires Valid()
      modifies this`now
      ensures Valid() && State() == Step(old(State()), Event.Tick(time))
    {
      now := time;
    }

    // ----- The list part of manage in xdmcp.c -----

    method StopNamed(name: string)
      requires Valid()
      modifies this`startingServer, this`serverTimeout, this`displays, displays
      ensures Valid() && Grown() && State() == Lifecycle.StopNamed(old(State()), name)
    {
      var d := FindDisplayByName(name);
      if d != null {
        StopOne(d);
      }
    }

    method Admit(info: Info)
      requires Valid()
      modifies this`startingServer, this`serverTimeout, this`displays, this`nextId, displays
      ensures Valid() && Grown() && State() == Step(old(State()), Event.Admit(info))
      ensures LifecycleInv.Keeps(old(State()), Event.Admit(info), State())
    {
      hide Views, Lifecycle.StopNamed, Lifecycle.NewDisplay, LifecycleInv.Keeps;
      LifecycleInv.StepKeeps(State(), Event.Admit(info));
      if !stopping {
        StopNamed(info.name);
        SameNewDisplay(State(), info, nextId);
        var d := NewDisplay(info.(id := nextId));
      }
    }

    // ----- Commands of ctrl.c -----

    method SuicideCmd(d: DisplayRec)
      requires Valid() && d in displays
      modifies d
      ensures Valid() && Grown() && State() == Step(old(State()), Event.SuicideCmd(d.info.id))
      ensures LifecycleInv.Keeps(old(State()), Event.SuicideCmd(d.info.id), State())
    {
      hide Views, LifecycleInv.Keeps;
      At(d, Event.SuicideCmd(d.info.id));
      LifecycleInv.StepKeeps(State(), Event.SuicideCmd(d.info.id));
      if d.status == Running && d.pid != NONE {
        d.status := Raiser;
      }
      Refocused(d);
      StepAt(old(State()), Event.SuicideCmd(d.info.id), old(Pos(d)));
    }

    method Login(d: DisplayRec, nuke: bool)
      requires Valid() && d in displays
      modifies d
      ensures Foc(d) == Lifecycle.Login(old(Foc(d)), nuke)
    {
      match d.status {
        case Running =>
          if d.pid != NONE && (d.userSess < 0 || nuke) {
            d.status := Raiser;
          }
        case Reserve => d.status := NotRunning;
        case _ =>
      }
    }

    method LoginCmd(name: string, nuke: bool)
      requires Valid()
      modifies displays
      ensures Valid() && Grown() && State() == Step(old(State()), Event.LoginCmd(name, nuke))
      ensures LifecycleInv.Keeps(old(State()), Event.LoginCmd(name, nuke), State())
    {
      hide Views, FindByName, Lifecycle.Login, LifecycleInv.Keeps;
      LifecycleInv.StepKeeps(State(), Event.LoginCmd(name, nuke));
      var d := FindDisplayByName(name);
      if d != null {
        Login(d, nuke);
        Refocused(d);
        StepAt(old(State()), Event.LoginCmd(name, nuke), old(Pos(d)));
      }
    }

    method ReserveCmd() returns (found: bool)
      requires Valid()
      modifies displays
      ensures Valid() && Grown() && State() == Step(old(State()), Event.ReserveCmd)
      ensures found <==> LastReserve(old(State()).ds).Some?
      ensures LifecycleInv.Keeps(old(State()), Event.ReserveCmd, State())
    {
      hide Views, PutBack, LifecycleInv.Keeps, LastReserve;
      LifecycleInv.StepKeeps(State(), Event.ReserveCmd);
      var rd := FindReserve();
      found := rd != null;
      if rd != null {
        rd.status := NotRunning;
        Refocused(rd);
        StepAt(old(State()), Event.ReserveCmd, old(Pos(rd)));
      }
    }

    /** The loop of startReserveDisplay. */
    method FindReserve() returns (rd: DisplayRec?)
      requires Valid()
      ensures rd == null <==> LastReserve(State().ds).None?
      ensures rd != null ==> rd in displays && LastReserve(State().ds) == Some(Pos(rd))
    {
      rd := null;
      for i := 0 to |displays|
        invariant rd == null ==> forall j :: 0 <= j < i ==> displays[j].status != Reserve
        invariant rd != null ==> rd in displays && Pos(rd) < i && rd.status == Reserve
        invariant rd != null ==> forall j :: Pos(rd) < j < i ==> displays[j].status != Reserve
      {
        if displays[i].status == Reserve {
          rd := displays[i];
        }
      }
      if rd != null { LastReserveIs(Views(displays), Pos(rd)); }
    }

    method ManageCmd(name: string, cfg: Config) returns (ok: bool)
      requires Valid()
      modifies this`displays, this`nextId
      ensures Valid() && Grown() && (ok <==> Manageable(old(State()).ds, name))
      ensures State() == Step(old(State()), Event.ManageCmd(name, cfg))
      ensures LifecycleInv.Keeps(old(State()), Event.ManageCmd(name, cfg), State())
    {
      hide Views, FindByName, Lifecycle.NewDisplay, LifecycleInv.Keeps;
      LifecycleInv.StepKeeps(State(), Event.ManageCmd(name, cfg));
      SameNewDisplay(State(), CommandInfo(name, cfg), nextId);
      if name != "" && name[0] == ':' { return false; }
      var d := FindDisplayByName(name);
      ok := d == null;
      if ok {
        d := NewDisplay(CommandInfo(name, cfg).(id := nextId));
      }
    }

    method UnmanageCmd(name: string)
      requires Valid()
      modifies this`startingServer, this`serverTimeout, this`displays, displays
      ensures Valid() && Grown() && State() == Step(old(State()), Event.UnmanageCmd(name))
      ensures LifecycleInv.Keeps(old(State()), Event.UnmanageCmd(name), State())
    {
      hide Views, FindByName, PutBack, Lifecycle.StopDisplay, LifecycleInv.Keeps, Step;
      LifecycleInv.StepKeeps(State(), Event.UnmanageCmd(name));
      UnmanageAt(State(), name);
      var d := FindDisplayByName(name);
      if d != null && d.info.origin == FromCommand {
        StopDisplay(d);
        Refocused(d);
      }
    }
  }

  lemma SameNewDisplay(s: Daemon, info: Info, id: nat)
    ensures Lifecycle.NewDisplay(s, info.(id := id)) == Lifecycle.NewDisplay(s, info)
  {}

  lemma StopEachFrom(s: Daemon, ids: seq<nat>, i: nat, force: bool)
    requires i < |ids|
    ensures StopEach(s, ids[i..], force) == StopEach(StopIf(s, ids[i], force), ids[i+1..], force)
  {
    assert ids[i..][0] == ids[i] && ids[i..][1..] == ids[i+1..];
  }

  lemma StopEachDone(s: Daemon, ids: seq<nat>, force: bool)
    ensures StopEach(s, ids[|ids|..], force) == s
  {}

  lemma {:induction false} FirstPid(ds: seq<Display>, pid: int, i: nat)
    requires i < |ds| && ds[i].pid == pid && forall j :: 0 <= j < i ==> ds[j].pid != pid
    ensures FindByPid(ds, pid) == Some(i)
  {
    if i > 0 { FirstPid(ds[1..], pid, i - 1); }
  }

  lemma {:induction false} FirstServerPid(ds: seq<Display>, pid: int, i: nat)
    requires i < |ds| && ds[i].serverPid == pid && forall j :: 0 <= j < i ==> ds[j].serverPid != pid
    ensures FindByServerPid(ds, pid) == Some(i)
  {
    if i > 0 { FirstServerPid(ds[1..], pid, i - 1); }
  }

  lemma LastReserveIs(ds: seq<Display>, i: nat)
    requires i < |ds| && ds[i].status == Reserve && forall j :: i < j < |ds| ==> ds[j].status != Reserve
    ensures LastReserve(ds) == Some(i)
  {
    var r := LastReserve(ds);
    assert r.Some?;
    assert r.value < i || i < r.value || r.value == i;
  }
}

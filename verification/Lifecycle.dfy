/**
 * dm.c and server.c: what each of their functions does to the display it is
 * called for and to the one global launch slot (startingServer, serverTimeout).
 *
 * Every function of the sources touches one display record only, so the steps
 * are given on a `Focus`: that record, the launch slot, and whether the record
 * has left the list. A `fork` argument is what fork() returns: a pid or NONE.
 */
module Lifecycle {
  import opened Wrappers
  import opened Displays

  /** The whole state of the daemon's main process that the model tracks. */
  datatype Daemon = Daemon(ds: seq<Display>, starting: Option<nat>, timer: Option<int>,
                           stopping: bool, sdDue: bool, now: int, nextId: nat, crashed: bool)

  datatype Focus = Focus(d: Display, gone: bool, starting: Option<nat>, timer: Option<int>)

  /** Globals that the per-display functions read and never write. */
  datatype Globals = Globals(now: int, stopping: bool, sdDue: bool)

  datatype ServerCmd = XsKeep | XsRestart | XsRetry

  /** How the session child of a display ended. */
  datatype Exit =
    | ExRemote | ExNormal | ExReserve | ExOpenFailed | ExSigterm
    | ExAlReserver | ExReserver | ExUnmanage | ExOther

  predicate Launching(d: Display) {
    d.serverStatus == Starting || d.serverStatus == Terminated ||
    d.serverStatus == Killed || d.serverStatus == Pausing
  }

  function AbortStartServer(f: Focus): Focus {
    if f.starting == Some(f.d.Id()) then
      if f.d.serverStatus != Ignore then
        f.(d := f.d.(serverStatus := Ignore), timer := None, starting := None)
      else
        f.(starting := None)
    else
      f
  }

  function StartRemoteLogin(f: Focus, fork: int): Focus {
    var d := f.d.(serverPid := fork);
    f.(d := d.(status := if fork == NONE then NotRunning else RemoteLogin))
  }

  function RStopDisplay(f: Focus, end: EndState, fork: int): Focus {
    var f := AbortStartServer(f);
    if f.d.serverPid != NONE || f.d.pid != NONE then
      f.(d := f.d.(status := Zombie, zstatus := end))
    else if end == DsReserve then
      f.(d := f.d.(status := Reserve))
    else if end == DsRemote then
      StartRemoteLogin(f, fork)
    else
      f.(gone := true)
  }

  function StopDisplay(f: Focus): Focus {
    RStopDisplay(f, DsRemove, NONE)
  }

  /** Called for the display in the launch slot only. */
  function StartServerFailed(f: Focus, g: Globals): Focus {
    if f.d.info.cfg.serverAttempts == 0 || f.d.startTries < f.d.info.cfg.serverAttempts then
      f.(d := f.d.(serverStatus := Pausing), timer := Some(f.d.info.cfg.openDelay + g.now))
    else
      StopDisplay(f.(d := f.d.(serverStatus := Ignore), timer := None, starting := None))
  }

  function StartServerOnce(f: Focus, g: Globals, fork: int): Focus {
    var d := f.d.(startTries := f.d.startTries + 1, serverStatus := Starting, serverPid := fork);
    if fork == NONE then
      StartServerFailed(f.(d := d), g)
    else
      f.(d := d, timer := Some(d.info.cfg.serverTimeout + g.now))
  }

  function StartServer(f: Focus, g: Globals, fork: int): Focus {
    StartServerOnce(f.(starting := Some(f.d.Id()), d := f.d.(startTries := 0)), g, fork)
  }

  function StartDisplayP2(f: Focus, g: Globals, fork: int): Focus {
    var d := f.d.(pid := fork);
    if fork == NONE then
      f.(d := d.(status := NotRunning))
    else
      f.(d := d.(lastStart := g.now))
  }

  function StartServerSuccess(f: Focus, g: Globals, fork: int): Focus {
    StartDisplayP2(f.(d := f.d.(serverStatus := Ignore), timer := None), g, fork)
  }

  /** The main loop has already disarmed the timer. */
  function StartServerTimeout(f: Focus, g: Globals, fork: int): Focus {
    match f.d.serverStatus
    case Ignore => f
    case Awaiting => f
    case Starting =>
      f.(d := f.d.(serverStatus := Terminated), timer := Some(f.d.info.cfg.serverTimeout + g.now))
    case Terminated =>
      f.(d := f.d.(serverStatus := Killed), timer := Some(10 + g.now))
    case Killed => StartServerFailed(f, g)
    case Pausing => StartServerOnce(f, g, fork)
  }

  function StartDisplay(f: Focus, g: Globals, fork: int): Focus {
    if g.stopping then
      StopDisplay(f)
    else
      var f := f.(d := f.d.(status := Running));
      if f.d.info.location == Local && f.d.serverPid == NONE then
        f.(d := f.d.(serverStatus := Awaiting))
      else
        StartDisplayP2(f, g, fork)
  }

  function KickDisplay(f: Focus, g: Globals, fork: int): Focus {
    var f := if f.d.status == NotRunning then StartDisplay(f, g, fork) else f;
    if !f.gone && f.d.serverStatus == Awaiting && f.starting.None? then
      StartServer(f, g, fork)
    else
      f
  }

  /** The session of a permanent display has ended and the display is to come up again. */
  function RestartDisplay(f: Focus, g: Globals, cmd: ServerCmd): Focus {
    var foreignRetry := cmd == XsRetry && f.d.info.location == Foreign;
    var localRetry := cmd == XsRetry && f.d.info.location == Local;
    var f := if foreignRetry then f.(d := f.d.(startTries := f.d.startTries + 1))
             else if localRetry then f
             else f.(d := f.d.(startTries := 0));
    if localRetry && g.now - f.d.lastStart < 120 then
      StopDisplay(f)
    else if foreignRetry && f.d.startTries > f.d.info.cfg.startAttempts then
      StopDisplay(f)
    else if f.d.serverPid != NONE && (cmd != XsKeep || f.d.info.cfg.terminateServer) then
      f.(d := f.d.(status := Phoenix))
    else
      f.(d := f.d.(status := NotRunning))
  }

  /** The part of exitDisplay for displays that have not been stopped. */
  function EndSession(f: Focus, g: Globals, end: EndState, cmd: ServerCmd, fork: int): Focus {
    if g.stopping then
      StopDisplay(f)
    else if end != DsRestart || f.d.info.lifetime == Transient then
      RStopDisplay(f, end, fork)
    else
      RestartDisplay(f, g, cmd)
  }

  function ExitDisplay(f: Focus, g: Globals, end: EndState, cmd: ServerCmd, fork: int): Focus {
    var cmd := if f.d.status == Raiser then XsKeep else cmd;
    var end := if g.sdDue then DsRemove else end;
    var f := f.(d := f.d.(userSess := NONE));
    if f.d.status == Zombie then
      RStopDisplay(f, f.d.zstatus, fork)
    else
      EndSession(f, g, end, cmd, fork)
  }

  /** reapChildren, when the pid is the session child of the display. */
  function ReapSession(f: Focus, g: Globals, exit: Exit, fork: int): Focus {
    var f := f.(d := f.d.(pid := NONE));
    match exit
    case ExRemote => ExitDisplay(f, g, DsRemote, XsKeep, fork)
    case ExNormal =>
      if f.d.info.lifetime == ReserveOnly then ExitDisplay(f, g, DsReserve, XsKeep, fork)
      else ExitDisplay(f, g, DsRestart, XsKeep, fork)
    case ExReserve => ExitDisplay(f, g, DsReserve, XsKeep, fork)
    case ExOpenFailed => ExitDisplay(f, g, DsRestart, XsRetry, fork)
    case ExSigterm => ExitDisplay(f, g, DsRestart, XsRetry, fork)
    case ExAlReserver => ExitDisplay(f, g, DsRestart, XsRestart, fork)
    case ExReserver => ExitDisplay(f, g, DsRestart, XsRestart, fork)
    case ExUnmanage => ExitDisplay(f, g, DsRemove, XsKeep, fork)
    case ExOther => ExitDisplay(f, g, DsRemove, XsKeep, fork)
  }

  /** reapChildren, when the pid is the X server of the display. */
  function ReapServer(f: Focus, g: Globals, fork: int): Focus {
    var f := f.(d := f.d.(serverPid := NONE));
    match f.d.status
    case Zombie => RStopDisplay(f, f.d.zstatus, fork)
    case Phoenix => f.(d := f.d.(status := NotRunning))
    case RemoteLogin =>
      f.(d := f.d.(status := if f.d.info.lifetime == ReserveOnly then Reserve else NotRunning))
    case Raiser => f
    case Running =>
      if f.starting == Some(f.d.Id()) && f.d.serverStatus != Ignore then StartServerFailed(f, g) else f
    case NotRunning => f
    case Reserve => f
  }

  /** The "suicide" command of a display's own control socket. */
  function Suicide(f: Focus): Focus {
    if f.d.status == Running && f.d.pid != NONE then f.(d := f.d.(status := Raiser)) else f
  }

  /** The effect of the "login" command on the named display. */
  function Login(f: Focus, nuke: bool): Focus {
    match f.d.status
    case Running =>
      if f.d.pid != NONE && (f.d.userSess < 0 || nuke) then f.(d := f.d.(status := Raiser)) else f
    case Reserve => f.(d := f.d.(status := NotRunning))
    case _ => f
  }

  // ----- Putting the focus back -----

  function FocusAt(s: Daemon, k: nat): Focus
    requires k < |s.ds|
  {
    Focus(s.ds[k], false, s.starting, s.timer)
  }

  function PutBack(s: Daemon, k: nat, f: Focus): Daemon
    requires k < |s.ds|
  {
    s.(ds := if f.gone then Without(s.ds, k) else s.ds[k := f.d],
       starting := f.starting, timer := f.timer)
  }

  function GlobalsOf(s: Daemon): Globals {
    Globals(s.now, s.stopping, s.sdDue)
  }

  /** Everything that can happen to the daemon. */
  datatype Event =
    | Kick(id: nat, fork: int)                      // main loop, one display of startDisplays
    | Reap(pid: int, exit: Exit, fork: int)         // one child collected by reapChildren
    | ServerTimer(fork: int)                        // serverTimeout has passed
    | ServerReady(fork: int)                        // SIGUSR1
    | XConnOk                                       // a session reports its display connection
    | StopOne(id: nat)                              // broken pipe, bad command, dropped configuration
    | Stoppen(force: bool)                          // shutdown of the daemon
    | CancelShutdown
    | ShutdownDue(due: bool)                        // scheduled system shutdown has begun or is withdrawn
    | SuicideCmd(id: nat)
    | LoginCmd(name: string, nuke: bool)
    | ReserveCmd
    | ManageCmd(name: string, cfg: Config)
    | UnmanageCmd(name: string)
    | UserSession(id: nat, uid: int)                // D_User and D_UnUser
    | Admit(info: Info)                             // xdmcp.c turns a pending session into a display
    | Tick(now: int)                                // updateNow

  /** stopDisplay, or stopInactiveDisplay when not forced, for the display with this id. */
  function StopIf(s: Daemon, id: nat, force: bool): Daemon {
    var k := IndexOf(s.ds, id);
    if k < |s.ds| && (force || (s.ds[k].status != RemoteLogin && s.ds[k].userSess < 0))
    then PutBack(s, k, StopDisplay(FocusAt(s, k)))
    else s
  }

  /** One display at a time, in list order; ids because records move when one leaves. */
  function StopEach(s: Daemon, ids: seq<nat>, force: bool): Daemon
    decreases |ids|
  {
    if ids == [] then s else StopEach(StopIf(s, ids[0], force), ids[1..], force)
  }

  function Ids(ds: seq<Display>): (ids: seq<nat>)
    ensures |ids| == |ds| && forall i :: 0 <= i < |ds| ==> ids[i] == ds[i].Id()
  {
    seq(|ds|, i requires 0 <= i < |ds| => ds[i].Id())
  }

  function StoppenStep(s: Daemon, force: bool): Daemon {
    StopEach(s, Ids(s.ds), force).(stopping := true)
  }

  function NewDisplay(s: Daemon, info: Info): Daemon {
    s.(ds := [Fresh(info.(id := s.nextId))] + s.ds, nextId := s.nextId + 1)
  }

  /** stopDisplay for the head-most display of a name, if there is one. */
  function StopNamed(s: Daemon, name: string): Daemon {
    var r := FindByName(s.ds, name);
    if r.Some? then PutBack(s, r.value, StopDisplay(FocusAt(s, r.value))) else s
  }

  /** The "manage" command is for displays of other hosts that are not managed yet. */
  predicate Manageable(ds: seq<Display>, name: string) {
    FindByName(ds, name).None? && !(name != "" && name[0] == ':')
  }

  function CommandInfo(name: string, cfg: Config): Info {
    Info(0, name, Foreign, Permanent, FromCommand, cfg, 0, None, 0)
  }

  /** The return value of the one fork() an event may lead to. */
  function ForkOf(e: Event): int {
    match e
    case Kick(_, fork) => fork
    case Reap(_, _, fork) => fork
    case ServerTimer(fork) => fork
    case ServerReady(fork) => fork
    case _ => NONE
  }

  predicate TimerDue(s: Daemon) {
    s.timer.Some? && s.now >= s.timer.value
  }

  function At(ds: seq<Display>, id: nat): Option<nat> {
    if Has(ds, id) then Some(IndexOf(ds, id)) else None
  }

  /** The display an event is about, if the code gets as far as touching one. */
  function Target(s: Daemon, e: Event): (r: Option<nat>)
    ensures r.Some? ==> r.value < |s.ds|
  {
    match e
    case Kick(id, _) => if s.stopping then None else At(s.ds, id)
    case Reap(pid, _, _) =>
      var r := FindByPid(s.ds, pid);
      if r.Some? then r else FindByServerPid(s.ds, pid)
    case ServerTimer(_) =>
      if TimerDue(s) && s.starting.Some? then At(s.ds, s.starting.value) else None
    case ServerReady(_) =>
      var r := if s.starting.Some? then At(s.ds, s.starting.value) else None;
      if r.Some? && s.ds[r.value].serverStatus == Starting then r else None
    case StopOne(id) => At(s.ds, id)
    case SuicideCmd(id) => At(s.ds, id)
    case UserSession(id, _) => At(s.ds, id)
    case LoginCmd(name, _) => FindByName(s.ds, name)
    case ReserveCmd => LastReserve(s.ds)
    case UnmanageCmd(name) =>
      var r := FindByName(s.ds, name);
      if r.Some? && s.ds[r.value].info.origin == FromCommand then r else None
    case _ => None
  }

  /** What an event does to its target. */
  function Act(f: Focus, g: Globals, e: Event): Focus {
    match e
    case Kick(_, fork) => KickDisplay(f, g, fork)
    case Reap(pid, exit, fork) =>
      if f.d.pid == pid then ReapSession(f, g, exit, fork) else ReapServer(f, g, fork)
    case ServerTimer(fork) => StartServerTimeout(f.(timer := None), g, fork)
    case ServerReady(fork) => StartServerSuccess(f, g, fork)
    case StopOne(_) => StopDisplay(f)
    case UnmanageCmd(_) => StopDisplay(f)
    case SuicideCmd(_) => Suicide(f)
    case LoginCmd(_, nuke) => Login(f, nuke)
    case ReserveCmd => f.(d := f.d.(status := NotRunning))
    case UserSession(_, uid) => f.(d := f.d.(userSess := uid))
    case _ => f
  }

  function Step(s: Daemon, e: Event): Daemon {
    var r := Target(s, e);
    if r.Some? then
      PutBack(s, r.value, Act(FocusAt(s, r.value), GlobalsOf(s), e))
    else
      match e
      case ServerTimer(_) =>                        // startServerTimeout dereferences startingServer
        if TimerDue(s) then s.(timer := None, crashed := true) else s
      case XConnOk => s.(starting := None)
      case Stoppen(force) => StoppenStep(s, force)
      case CancelShutdown => s.(stopping := false, sdDue := false)
      case ShutdownDue(due) => s.(sdDue := due)
      case ManageCmd(name, cfg) =>
        if Manageable(s.ds, name) then NewDisplay(s, CommandInfo(name, cfg)) else s
      case Admit(info) =>                           // stoppen has closed the sockets
        if s.stopping then s else NewDisplay(StopNamed(s, info.name), info)
      case Tick(now) => s.(now := now)
      case _ => s
  }

  lemma ReapAt(s: Daemon, pid: int, exit: Exit, fork: int)
    requires pid != NONE
    ensures var bySession, byServer := FindByPid(s.ds, pid), FindByServerPid(s.ds, pid);
      Step(s, Reap(pid, exit, fork)) ==
      if bySession.Some? then
        PutBack(s, bySession.value, ReapSession(FocusAt(s, bySession.value), GlobalsOf(s), exit, fork))
      else if byServer.Some? then
        PutBack(s, byServer.value, ReapServer(FocusAt(s, byServer.value), GlobalsOf(s), fork))
      else s
  {}

  lemma TimerAt(s: Daemon, fork: int)
    requires TimerDue(s) ==> s.starting.Some? && Has(s.ds, s.starting.value)
    ensures Step(s, ServerTimer(fork)) ==
      if !TimerDue(s) then s
      else
        var k := IndexOf(s.ds, s.starting.value);
        PutBack(s, k, StartServerTimeout(FocusAt(s, k).(timer := None), GlobalsOf(s), fork))
  {}

  lemma UnmanageAt(s: Daemon, name: string)
    ensures var r := FindByName(s.ds, name);
      Step(s, UnmanageCmd(name)) ==
      if r.Some? && s.ds[r.value].info.origin == FromCommand
      then PutBack(s, r.value, StopDisplay(FocusAt(s, r.value)))
      else s
  {}

  lemma StepAt(s: Daemon, e: Event, k: nat)
    requires Target(s, e) == Some(k)
    ensures Step(s, e) == PutBack(s, k, Act(FocusAt(s, k), GlobalsOf(s), e))
  {}
}

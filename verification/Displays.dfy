/**
 * The display records of dm.h and the list of them kept by dpylist.c, as values.
 *
 * The daemon addresses a record by pointer; here a record carries an id that is
 * never handed out twice.
 */
module Displays {
  import opened Wrappers

  datatype Status = NotRunning | Running | Zombie | Phoenix | Raiser | Reserve | RemoteLogin

  datatype ServerStatus = Ignore | Awaiting | Starting | Terminated | Killed | Pausing

  datatype Location = Local | Foreign

  datatype Lifetime = Permanent | ReserveOnly | Transient

  datatype Origin = FromFile | FromXdmcp | FromCommand

  /** What a stopped display turns into once its processes are gone. */
  datatype EndState = DsRestart | DsReserve | DsRemote | DsRemove

  /** Configuration of a display; `serverAttempts == 0` means no limit. */
  datatype Config = Config(serverAttempts: nat, startAttempts: nat, serverTimeout: int,
                           openDelay: int, terminateServer: bool)

  /** A peer address as `addressEqual` sees it. */
  datatype Addr = Addr(family: nat, host: seq<nat>, port: seq<nat>)

  /** The part of a display that does not change while it is listed. */
  datatype Info = Info(id: nat, name: string, location: Location, lifetime: Lifetime, origin: Origin,
                       cfg: Config, sessionId: nat, from: Option<Addr>, displayNumber: nat)

  datatype Display = Display(info: Info, status: Status, zstatus: EndState, pid: int, serverPid: int,
                             serverStatus: ServerStatus, startTries: nat, lastStart: int, userSess: int)
  {
    function Id(): nat { info.id }
  }

  /** Marks "no process" and "no user". */
  const NONE := -1

  /** A record as `newDisplay` leaves it. */
  function Fresh(info: Info): Display {
    Display(info, NotRunning, DsRestart, NONE, NONE, Ignore, 0, 0, NONE)
  }

  /** Stopped, and to be forgotten as soon as its last process is reaped. */
  predicate Condemned(d: Display) {
    d.status == Zombie && d.zstatus == DsRemove
  }

  predicate Passive(d: Display) {
    d.status == NotRunning || d.status == Reserve
  }

  /** The position of the record with this id, or the length of the list. */
  function IndexOf(ds: seq<Display>, id: nat): (k: nat)
    ensures k <= |ds|
    ensures k < |ds| ==> ds[k].Id() == id
    ensures forall i :: 0 <= i < k ==> ds[i].Id() != id
  {
    if ds == [] then 0
    else if ds[0].Id() == id then 0
    else 1 + IndexOf(ds[1..], id)
  }

  predicate Has(ds: seq<Display>, id: nat) {
    IndexOf(ds, id) < |ds|
  }

  function Get(ds: seq<Display>, id: nat): (d: Display)
    requires Has(ds, id)
    ensures d.Id() == id && d in ds
  {
    ds[IndexOf(ds, id)]
  }

  function Without(ds: seq<Display>, k: nat): seq<Display>
    requires k < |ds|
  {
    ds[..k] + ds[k+1..]
  }

  ghost predicate UniqueIds(ds: seq<Display>) {
    forall i, j :: 0 <= i < j < |ds| ==> ds[i].Id() != ds[j].Id()
  }

  function FindByPid(ds: seq<Display>, pid: int): (r: Option<nat>)
    ensures r.Some? ==> r.value < |ds| && ds[r.value].pid == pid
    ensures r.None? ==> forall i :: 0 <= i < |ds| ==> ds[i].pid != pid
  {
    if ds == [] then None
    else if ds[0].pid == pid then Some(0)
    else
      var r := FindByPid(ds[1..], pid);
      if r.Some? then Some(r.value + 1) else None
  }

  function FindByServerPid(ds: seq<Display>, pid: int): (r: Option<nat>)
    ensures r.Some? ==> r.value < |ds| && ds[r.value].serverPid == pid
    ensures r.None? ==> forall i :: 0 <= i < |ds| ==> ds[i].serverPid != pid
  {
    if ds == [] then None
    else if ds[0].serverPid == pid then Some(0)
    else
      var r := FindByServerPid(ds[1..], pid);
      if r.Some? then Some(r.value + 1) else None
  }

  /** The head-most display of a name. */
  function FindByName(ds: seq<Display>, name: string): (r: Option<nat>)
    ensures r.Some? ==> r.value < |ds| && ds[r.value].info.name == name
    ensures r.Some? ==> forall i :: 0 <= i < r.value ==> ds[i].info.name != name
    ensures r.None? ==> forall i :: 0 <= i < |ds| ==> ds[i].info.name != name
  {
    if ds == [] then None
    else if ds[0].info.name == name then Some(0)
    else
      var r := FindByName(ds[1..], name);
      if r.Some? then Some(r.value + 1) else None
  }

  /** The display `startReserveDisplay` picks: the last idle one. */
  function LastReserve(ds: seq<Display>): (r: Option<nat>)
    ensures r.Some? ==> r.value < |ds| && ds[r.value].status == Reserve
    ensures r.Some? ==> forall i :: r.value < i < |ds| ==> ds[i].status != Reserve
    ensures r.None? ==> forall i :: 0 <= i < |ds| ==> ds[i].status != Reserve
  {
    if ds == [] then None
    else if ds[|ds|-1].status == Reserve then Some(|ds| - 1)
    else LastReserve(ds[..|ds|-1])
  }

  predicate AnyRunning(ds: seq<Display>) {
    exists i :: 0 <= i < |ds| && !Passive(ds[i])
  }

  /** Processes recorded by one display. */
  function Procs(d: Display): nat {
    (if d.pid != NONE then 1 else 0) + (if d.serverPid != NONE then 1 else 0)
  }

  /** Processes recorded by all displays. */
  function AllProcs(ds: seq<Display>): nat {
    if ds == [] then 0 else Procs(ds[0]) + AllProcs(ds[1..])
  }
}

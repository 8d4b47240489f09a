/**
 * The session-management half of the X Display Manager Control Protocol 1.1 as
 * xdmcp.c and protodpy.c implement it: REQUEST, MANAGE and KEEPALIVE packets from
 * a network that may lose, repeat, reorder and forge them.
 */
module Xdmcp {
  import opened Wrappers
  import opened Displays
  import opened Lifecycle
  import opened LifecycleInv
  import opened LifecycleLists

  /** Session IDs travel as CARD32. */
  const ID_SPACE := 0x1_0000_0000

  /** Dates are compared as unsigned long. */
  const DATE_SPACE := 0x1_0000_0000_0000_0000

  /** 30 minutes, in seconds */
  const PROTO_TIMEOUT := 1800

  datatype ConnType = LocalConn | Internet | Internet6 | OtherConn(code: nat)

  /** A session that has been accepted but not yet started. */
  datatype Proto = Proto(addr: Addr, displayNumber: nat, connType: ConnType, connAddr: seq<nat>,
                         date: nat, sessionId: nat)

  datatype Reason = NoValidAddr | NoValidAuth | NoAuthentic

  datatype Reply =
    | NoReply
    | Accept(sessionId: nat)
    | Decline(reason: Reason)
    | Refuse(sessionId: nat)
    | Failed(sessionId: nat)
    | Alive(running: bool, sessionId: nat)

  /**
   * A REQUEST packet as read from the wire. `lengthOk`: the header's length fits
   * the contents; `authorizable` and `authentic`: the outcomes of choosing an
   * authorization protocol and of checking the authentication data.
   */
  datatype Request = Request(displayNumber: nat, types: seq<ConnType>, addresses: seq<seq<nat>>,
                             lengthOk: bool, authorizable: bool, authentic: bool)

  /** `started` records, oldest first, the session IDs that were turned into displays. */
  datatype Xdm = Xdm(daemon: Daemon, protos: seq<Proto>, base: nat, lastId: nat, started: seq<nat>)

  // ----- protodpy.c -----

  predicate IsFor(p: Proto, from: Addr, num: nat) {
    p.displayNumber == num && p.addr == from
  }

  function FindProto(ps: seq<Proto>, from: Addr, num: nat): (r: Option<nat>)
    ensures r.Some? ==> r.value < |ps| && IsFor(ps[r.value], from, num)
    ensures r.None? ==> forall i :: 0 <= i < |ps| ==> !IsFor(ps[i], from, num)
  {
    if ps == [] then None
    else if IsFor(ps[0], from, num) then Some(0)
    else
      var r := FindProto(ps[1..], from, num);
      if r.Some? then Some(r.value + 1) else None
  }

  predicate Expired(p: Proto, now: int) {
    p.date < (now - PROTO_TIMEOUT) % DATE_SPACE
  }

  /** What updateNow makes of the clock: never less than 10000 seconds. */
  predicate ClockOk(now: int) {
    10000 <= now < DATE_SPACE
  }

  /** With such a clock, the unsigned comparison means "older than 30 minutes". */
  lemma ExpiredExactly(p: Proto, now: int)
    requires ClockOk(now)
    ensures Expired(p, now) <==> now - p.date > PROTO_TIMEOUT
  {}

  function TimeoutProtos(ps: seq<Proto>, now: int): (r: seq<Proto>)
    ensures forall p :: p in r <==> p in ps && !Expired(p, now)
  {
    if ps == [] then []
    else (if Expired(ps[0], now) then [] else [ps[0]]) + TimeoutProtos(ps[1..], now)
  }

  function DropProto(ps: seq<Proto>, k: nat): seq<Proto>
    requires k < |ps|
  {
    ps[..k] + ps[k+1..]
  }

  // ----- xdmcp.c -----

  predicate Supported(t: ConnType) {
    !t.OtherConn?
  }

  /** selectConnectionTypeIndex: the first supported type. */
  function SelectType(types: seq<ConnType>): (r: Option<nat>)
    ensures r.Some? ==> r.value < |types| && Supported(types[r.value])
    ensures r.Some? ==> forall i :: 0 <= i < r.value ==> !Supported(types[i])
    ensures r.None? ==> forall i :: 0 <= i < |types| ==> !Supported(types[i])
  {
    if types == [] then None
    else if Supported(types[0]) then Some(0)
    else
      var r := SelectType(types[1..]);
      if r.Some? then Some(r.value + 1) else None
  }

  function NewProto(m: Xdm, from: Addr, num: nat, t: ConnType, a: seq<nat>): Xdm {
    var id := m.lastId + 1;
    var p := Proto(from, num, t, a, m.daemon.now % DATE_SPACE, id % ID_SPACE);
    m.(protos := [p] + TimeoutProtos(m.protos, m.daemon.now), lastId := id)
  }

  /** The rest of request_respond, once there is a proto-display (number k of the list). */
  function Settle(m: Xdm, k: nat, req: Request): (Xdm, Reply)
    requires k < |m.protos|
  {
    if !req.authorizable then (m.(protos := DropProto(m.protos, k)), Decline(NoValidAuth))
    else if !req.authentic then (m.(protos := DropProto(m.protos, k)), Decline(NoAuthentic))
    else (m, Accept(m.protos[k].sessionId))
  }

  function RequestRespond(m: Xdm, from: Addr, req: Request): (Xdm, Reply) {
    if !req.lengthOk then (m, NoReply)
    else if |req.types| == 0 || |req.addresses| != |req.types| then (m, Decline(NoValidAddr))
    else
      var r := FindProto(m.protos, from, req.displayNumber);
      if r.Some? then Settle(m, r.value, req)
      else
        var i := SelectType(req.types);
        if i.None? then (m, Decline(NoValidAddr))
        else Settle(NewProto(m, from, req.displayNumber, req.types[i.value], req.addresses[i.value]), 0, req)
  }

  function FindByAddress(ds: seq<Display>, from: Addr, num: nat): (r: Option<nat>)
    ensures r.Some? ==> r.value < |ds| && ds[r.value].info.origin == FromXdmcp &&
                        ds[r.value].info.displayNumber == num && ds[r.value].info.from == Some(from)
    ensures r.None? ==> forall i :: 0 <= i < |ds| ==>
      !(ds[i].info.origin == FromXdmcp && ds[i].info.displayNumber == num && ds[i].info.from == Some(from))
  {
    if ds == [] then None
    else if ds[0].info.origin == FromXdmcp && ds[0].info.displayNumber == num && ds[0].info.from == Some(from)
    then Some(0)
    else
      var r := FindByAddress(ds[1..], from, num);
      if r.Some? then Some(r.value + 1) else None
  }

  function FindBySessionId(ds: seq<Display>, id: nat): (r: Option<nat>)
    ensures r.Some? ==> r.value < |ds| && ds[r.value].info.sessionId == id
    ensures r.None? ==> forall i :: 0 <= i < |ds| ==> ds[i].info.sessionId != id
  {
    if ds == [] then None
    else if ds[0].info.sessionId == id then Some(0)
    else
      var r := FindBySessionId(ds[1..], id);
      if r.Some? then Some(r.value + 1) else None
  }

  function XdmcpInfo(name: string, p: Proto, from: Addr, cfg: Config): Info {
    Info(0, name, Foreign, Transient, FromXdmcp, cfg, p.sessionId, Some(from), p.displayNumber)
  }

  /** The branch of manage that starts the pending session number k under the given name. */
  function StartSession(m: Xdm, k: nat, from: Addr, name: string, cfg: Config): Xdm
    requires k < |m.protos|
  {
    var p := m.protos[k];
    m.(daemon := NewDisplay(StopNamed(m.daemon, name), XdmcpInfo(name, p, from, cfg)),
       protos := DropProto(m.protos, k),
       started := m.started + [p.sessionId])
  }

  /** `name` is what the name service makes of the connection address, if anything. */
  function Manage(m: Xdm, from: Addr, id: nat, num: nat, lengthOk: bool,
                  name: Option<string>, cfg: Config): (Xdm, Reply)
  {
    if !lengthOk then (m, NoReply)
    else
      var r := FindProto(m.protos, from, num);
      if r.None? || m.protos[r.value].sessionId != id then
        var d := FindByAddress(m.daemon.ds, from, num);
        if r.None? && d.Some? && m.daemon.ds[d.value].info.sessionId == id then (m, NoReply)
        else (m, Refuse(id))
      else if name.None? then (m, Failed(id))
      else (StartSession(m, r.value, from, name.value, cfg), NoReply)
  }

  function SendAlive(m: Xdm, from: Addr, id: nat, num: nat, lengthOk: bool): Reply {
    if !lengthOk then NoReply
    else
      var ds := m.daemon.ds;
      var bySession := FindBySessionId(ds, id);
      var d := if bySession.Some? then bySession else FindByAddress(ds, from, num);
      if d.Some? && ds[d.value].status == Running
      then Alive(ds[d.value].info.sessionId == id, ds[d.value].info.sessionId)
      else Alive(false, 0)
  }

  // ----- Runs -----

  datatype Packet =
    | RequestPkt(from: Addr, req: Request)
    | ManagePkt(from: Addr, id: nat, num: nat, lengthOk: bool, name: Option<string>, cfg: Config)
    | KeepAlivePkt(from: Addr, id: nat, num: nat, lengthOk: bool)

  datatype Input = Received(p: Packet) | Internal(e: Event)

  /** stoppen closes the listening sockets. */
  function Step(m: Xdm, i: Input): (Xdm, Reply) {
    match i
    case Internal(e) => (m.(daemon := Lifecycle.Step(m.daemon, e)), NoReply)
    case Received(p) =>
      if m.daemon.stopping then (m, NoReply)
      else
        match p
        case RequestPkt(from, req) => RequestRespond(m, from, req)
        case ManagePkt(from, id, num, lengthOk, name, cfg) => Manage(m, from, id, num, lengthOk, name, cfg)
        case KeepAlivePkt(from, id, num, lengthOk) => (m, SendAlive(m, from, id, num, lengthOk))
  }

  /** Any packet may arrive, and only packets admit displays; fewer than 2^32 IDs have been issued. */
  ghost predicate Possible(m: Xdm, i: Input) {
    && (i.Internal? ==> LifecycleInv.Possible(m.daemon, i.e) && !i.e.Admit?)
    && m.lastId - m.base < ID_SPACE
  }

  function Run(m: Xdm, inputs: seq<Input>): Xdm
    decreases |inputs|
  {
    if inputs == [] then m else Run(Step(m, inputs[0]).0, inputs[1..])
  }

  ghost predicate PossibleRun(m: Xdm, inputs: seq<Input>)
    decreases |inputs|
  {
    inputs == [] || (Possible(m, inputs[0]) && PossibleRun(Step(m, inputs[0]).0, inputs[1..]))
  }

  // ----- The invariant -----

  /** The ID has been handed out since start-up. */
  ghost predicate Issued(m: Xdm, id: nat) {
    exists n :: m.base < n <= m.lastId && n % ID_SPACE == id
  }

  ghost predicate NoDup<T>(s: seq<T>) {
    forall i, j :: 0 <= i < j < |s| ==> s[i] != s[j]
  }

  predicate Apart(p: Proto, q: Proto) {
    !IsFor(p, q.addr, q.displayNumber) && p.sessionId != q.sessionId
  }

  ghost predicate AllApart(ps: seq<Proto>) {
    forall i, j :: 0 <= i < j < |ps| ==> Apart(ps[i], ps[j])
  }

  /** At most one proto-display for an address and display number, and for an ID. */
  ghost predicate ProtosOk(m: Xdm) {
    && AllApart(m.protos)
    && (forall p :: p in m.protos ==> Issued(m, p.sessionId))
  }

  /** No ID has been started twice, nor is one that was started still pending. */
  ghost predicate StartedOk(m: Xdm) {
    && NoDup(m.started)
    && (forall id :: id in m.started ==> Issued(m, id))
    && (forall p :: p in m.protos ==> p.sessionId !in m.started)
  }

  /** A display's ID was started for it, or it is not an XDMCP display and has none. */
  ghost predicate InfoOk(info: Info, started: seq<nat>) {
    if info.origin == FromXdmcp then info.sessionId in started && info.from.Some?
    else info.sessionId == 0 && info.from.None?
  }

  predicate SameSession(a: Info, b: Info) {
    a.origin == FromXdmcp && b.origin == FromXdmcp && a.sessionId == b.sessionId
  }

  ghost predicate SessionsOk(ds: seq<Display>, started: seq<nat>) {
    && (forall x :: Has(ds, x) ==> InfoOk(Get(ds, x).info, started))
    && (forall x, y :: Has(ds, x) && Has(ds, y) && x != y ==>
          !SameSession(Get(ds, x).info, Get(ds, y).info))
  }

  ghost predicate Inv(m: Xdm) {
    && Listed(m.daemon)
    && m.base <= m.lastId
    && ProtosOk(m) && StartedOk(m)
    && SessionsOk(m.daemon.ds, m.started)
  }

  ghost predicate Initial(m: Xdm) {
    && LifecycleInv.Initial(m.daemon)
    && m.protos == [] && m.started == [] && m.lastId == m.base
    && (forall i :: 0 <= i < |m.daemon.ds| ==>
          && m.daemon.ds[i].info.origin == FromFile
          && m.daemon.ds[i].info.sessionId == 0 && m.daemon.ds[i].info.from.None?)
  }

  // ----- Proofs: IDs -----

  lemma DivStep(a: nat, b: nat)
    requires a < b && a % ID_SPACE == b % ID_SPACE
    ensures b - a >= ID_SPACE
  {
    var qa, qb := a / ID_SPACE, b / ID_SPACE;
    assert b - a == (qb - qa) * ID_SPACE;
    assert qb - qa >= 1;
  }

  lemma ModDistinct(a: nat, b: nat)
    requires a < b < a + ID_SPACE
    ensures a % ID_SPACE != b % ID_SPACE
  {
    if a % ID_SPACE == b % ID_SPACE {
      DivStep(a, b);
    }
  }

  /** The next ID is new even after truncation. */
  lemma NextIdIsNew(m: Xdm)
    requires m.base <= m.lastId && m.lastId - m.base < ID_SPACE
    ensures !Issued(m, (m.lastId + 1) % ID_SPACE)
  {
    forall n | m.base < n <= m.lastId ensures n % ID_SPACE != (m.lastId + 1) % ID_SPACE {
      ModDistinct(n, m.lastId + 1);
    }
  }

  lemma IssuedMore(m: Xdm, id: nat)
    requires m.base <= m.lastId
    ensures var m' := m.(lastId := m.lastId + 1);
      (Issued(m, id) ==> Issued(m', id)) && Issued(m', (m.lastId + 1) % ID_SPACE)
  {
    if Issued(m, id) {
      var n :| m.base < n <= m.lastId && n % ID_SPACE == id;
      assert m.base < n <= m.lastId + 1;
    }
    assert m.base < m.lastId + 1 <= m.lastId + 1;
  }

  lemma AllApartCons(p: Proto, ps: seq<Proto>)
    requires AllApart(ps) && forall q :: q in ps ==> Apart(p, q)
    ensures AllApart([p] + ps)
  {
    var r := [p] + ps;
    forall i, j | 0 <= i < j < |r| ensures Apart(r[i], r[j]) {
      assert r[j] == ps[j-1];
      if i > 0 { assert r[i] == ps[i-1]; }
    }
  }

  lemma {:induction false} TimeoutApart(ps: seq<Proto>, now: int)
    requires AllApart(ps)
    ensures AllApart(TimeoutProtos(ps, now))
  {
    if ps != [] {
      TimeoutApart(ps[1..], now);
      var r := TimeoutProtos(ps[1..], now);
      forall q | q in r ensures Apart(ps[0], q) {
        assert q in ps[1..];
        var k :| 0 <= k < |ps[1..]| && ps[1..][k] == q;
        assert ps[k+1] == q;
      }
      AllApartCons(ps[0], r);
      assert [] + r == r;
    }
  }

  lemma NewProtoOk(m: Xdm, from: Addr, num: nat, t: ConnType, a: seq<nat>)
    requires Inv(m) && m.lastId - m.base < ID_SPACE && FindProto(m.protos, from, num).None?
    ensures Inv(NewProto(m, from, num, t, a))
  {
    var m' := NewProto(m, from, num, t, a);
    var p := m'.protos[0];
    var kept := TimeoutProtos(m.protos, m.daemon.now);
    NextIdIsNew(m);
    TimeoutApart(m.protos, m.daemon.now);
    forall id ensures Issued(m, id) ==> Issued(m', id) { IssuedMore(m, id); }
    IssuedMore(m, p.sessionId);
    forall q | q in kept ensures Apart(p, q) && Issued(m', q.sessionId) && q.sessionId !in m.started {
      assert q in m.protos;
    }
    AllApartCons(p, kept);
    assert m'.protos == [p] + kept;
  }

  lemma DropProtoOk(m: Xdm, k: nat)
    requires Inv(m) && k < |m.protos|
    ensures Inv(m.(protos := DropProto(m.protos, k)))
    ensures forall p :: p in DropProto(m.protos, k) ==> p in m.protos && p.sessionId != m.protos[k].sessionId
  {
    var ps := DropProto(m.protos, k);
    forall i | 0 <= i < |ps| ensures ps[i] == m.protos[if i < k then i else i + 1] {}
    forall p | p in ps ensures p in m.protos && p.sessionId != m.protos[k].sessionId {
      var i :| 0 <= i < |ps| && ps[i] == p;
      assert m.protos[if i < k then i else i + 1] == p;
    }
  }

  lemma RequestInv(m: Xdm, from: Addr, req: Request)
    requires Inv(m) && m.lastId - m.base < ID_SPACE
    ensures Inv(RequestRespond(m, from, req).0)
  {
    var r := FindProto(m.protos, from, req.displayNumber);
    var i := SelectType(req.types);
    if req.lengthOk && |req.types| > 0 && |req.addresses| == |req.types| {
      if r.Some? {
        DropProtoOk(m, r.value);
      } else if i.Some? {
        NewProtoOk(m, from, req.displayNumber, req.types[i.value], req.addresses[i.value]);
        DropProtoOk(NewProto(m, from, req.displayNumber, req.types[i.value], req.addresses[i.value]), 0);
      }
    }
  }

  // ----- Proofs: displays -----

  /** Displays keep what they were created with; the only newcomers carry no session ID. */
  ghost predicate SameSessions(ds: seq<Display>, ds': seq<Display>) {
    forall x :: Has(ds', x) ==>
      || (Has(ds, x) && Get(ds', x).info == Get(ds, x).info)
      || (Get(ds', x).info.origin == FromCommand && Get(ds', x).info.sessionId == 0 && Get(ds', x).info.from.None?)
  }

  lemma ContinuedSessions(s: Daemon, s': Daemon)
    requires Listed(s') && Continues(s, s') && s'.nextId == s.nextId
    ensures SameSessions(s.ds, s'.ds)
  {
    forall x: nat | Has(s'.ds, x) ensures x < s.nextId { assert s'.ds[IndexOf(s'.ds, x)].Id() == x; }
  }

  lemma StepSessions(s: Daemon, e: Event)
    requires Listed(s) && LifecycleInv.Possible(s, e) && !e.Admit?
    ensures SameSessions(s.ds, Lifecycle.Step(s, e).ds)
  {
    StepListed(s, e);
    if e.ManageCmd? && Manageable(s.ds, e.name) {
      NewDisplayGets(s, CommandInfo(e.name, e.cfg));
    } else {
      hide Listed, Continues, SameSessions, LifecycleInv.Possible;
      ContinuedSessions(s, Lifecycle.Step(s, e));
    }
  }

  lemma SessionsKept(ds: seq<Display>, ds': seq<Display>, started: seq<nat>)
    requires SessionsOk(ds, started) && SameSessions(ds, ds')
    ensures SessionsOk(ds', started)
  {}

  lemma StartSessionInv(m: Xdm, k: nat, from: Addr, name: string, cfg: Config)
    requires Inv(m) && k < |m.protos|
    ensures Inv(StartSession(m, k, from, name, cfg))
  {
    var p := m.protos[k];
    var m1 := m.(protos := DropProto(m.protos, k));
    var s1 := StopNamed(m.daemon, name);
    var info := XdmcpInfo(name, p, from, cfg);
    var m' := StartSession(m, k, from, name, cfg);
    DropProtoOk(m, k);
    StopNamedListed(m.daemon, name);
    ContinuedSessions(m.daemon, s1);
    NewDisplayListed(s1, info);
    NewDisplayGets(s1, info);
    SessionsKept(m.daemon.ds, s1.ds, m.started);
    assert p in m.protos;
    assert StartedOk(m') by {
      forall id | id in m'.started ensures Issued(m', id) {
        assert Issued(m, id);
      }
      forall q | q in m'.protos ensures q.sessionId !in m'.started {}
    }
    assert ProtosOk(m') by {
      forall q | q in m'.protos ensures Issued(m', q.sessionId) { assert Issued(m1, q.sessionId); }
    }
    assert SessionsOk(m'.daemon.ds, m'.started) by {
      StartedGrows(s1.ds, m'.daemon.ds, s1.nextId, m.started, p.sessionId);
    }
  }

  lemma ManageInv(m: Xdm, from: Addr, id: nat, num: nat, lengthOk: bool, name: Option<string>, cfg: Config)
    requires Inv(m)
    ensures Inv(Manage(m, from, id, num, lengthOk, name, cfg).0)
  {
    var r := FindProto(m.protos, from, num);
    if r.Some? && name.Some? { StartSessionInv(m, r.value, from, name.value, cfg); }
  }

  lemma StartedGrows(ds: seq<Display>, ds': seq<Display>, new_: nat, started: seq<nat>, id: nat)
    requires SessionsOk(ds, started) && id !in started
    requires Has(ds', new_) && Get(ds', new_).info.origin == FromXdmcp
    requires Get(ds', new_).info.sessionId == id && Get(ds', new_).info.from.Some?
    requires forall x :: Has(ds', x) && x != new_ ==> Has(ds, x) && Get(ds', x) == Get(ds, x)
    ensures SessionsOk(ds', started + [id])
  {}

  // ----- Theorems -----

  lemma StepInv(m: Xdm, i: Input)
    requires Inv(m) && Possible(m, i)
    ensures Inv(Step(m, i).0)
  {
    match i {
      case Internal(e) =>
        StepListed(m.daemon, e);
        StepSessions(m.daemon, e);
        SessionsKept(m.daemon.ds, Lifecycle.Step(m.daemon, e).ds, m.started);
      case Received(p) =>
        match p {
          case RequestPkt(from, req) => RequestInv(m, from, req);
          case ManagePkt(from, id, num, lengthOk, name, cfg) =>
            ManageInv(m, from, id, num, lengthOk, name, cfg);
          case KeepAlivePkt(_, _, _, _) =>
        }
    }
  }

  lemma {:induction false} RunInv(m: Xdm, inputs: seq<Input>)
    requires Inv(m) && PossibleRun(m, inputs)
    ensures Inv(Run(m, inputs))
    decreases |inputs|
  {
    if inputs != [] {
      StepInv(m, inputs[0]);
      RunInv(Step(m, inputs[0]).0, inputs[1..]);
    }
  }

  /** The session ID of the display that one input brings into being by way of a packet, if it does. */
  function StartedBy(m: Xdm, i: Input): seq<nat> {
    var s' := Step(m, i).0.daemon;
    if i.Received? && s'.nextId != m.daemon.nextId && s'.ds != [] then [s'.ds[0].info.sessionId] else []
  }

  /** The same for a run, in order. */
  function Starts(m: Xdm, inputs: seq<Input>): seq<nat>
    decreases |inputs|
  {
    if inputs == [] then [] else StartedBy(m, inputs[0]) + Starts(Step(m, inputs[0]).0, inputs[1..])
  }

  lemma StartIsRecorded(m: Xdm, i: Input)
    ensures Step(m, i).0.started == m.started + StartedBy(m, i)
  {}

  lemma {:induction false} StartsAreRecorded(m: Xdm, inputs: seq<Input>)
    ensures Run(m, inputs).started == m.started + Starts(m, inputs)
    decreases |inputs|
  {
    hide Step, StartedBy;
    if inputs != [] {
      StartIsRecorded(m, inputs[0]);
      StartsAreRecorded(Step(m, inputs[0]).0, inputs[1..]);
    }
  }

  /**
   * Whatever the network does: pending IDs are distinct, there is one pending
   * session per address and display number, and no two displays that packets
   * start over the whole run have the same session ID.
   */
  lemma AnyTraffic(m: Xdm, inputs: seq<Input>)
    requires Initial(m) && PossibleRun(m, inputs)
    ensures Inv(Run(m, inputs))
    ensures NoDup(Starts(m, inputs))
  {
    InitialInv(m.daemon);
    InvIsListed(m.daemon);
    RunInv(m, inputs);
    StartsAreRecorded(m, inputs);
    assert m.started + Starts(m, inputs) == Starts(m, inputs);
  }

  // ----- How a pending session ends -----

  /**
   * By its own MANAGE, by a REQUEST of its own that is declined, or, when it is older
   * than 30 minutes, by any REQUEST for which a new session is made.
   */
  predicate Ends(m: Xdm, i: Input, p: Proto) {
    i.Received? && !m.daemon.stopping &&
    match i.p
    case ManagePkt(from, id, num, lengthOk, name, _) =>
      lengthOk && IsFor(p, from, num) && id == p.sessionId && name.Some?
    case RequestPkt(from, req) =>
      req.lengthOk && |req.types| > 0 && |req.addresses| == |req.types| &&
      (if IsFor(p, from, req.displayNumber) then !req.authorizable || !req.authentic
       else
         FindProto(m.protos, from, req.displayNumber).None? && SelectType(req.types).Some? &&
         m.daemon.now - p.date > PROTO_TIMEOUT)
    case KeepAlivePkt(_, _, _, _) => false
  }

  /** Some input of the run ends it. */
  predicate EndsIn(m: Xdm, inputs: seq<Input>, p: Proto)
    decreases |inputs|
  {
    inputs != [] && (Ends(m, inputs[0], p) || EndsIn(Step(m, inputs[0]).0, inputs[1..], p))
  }

  predicate ClockRun(inputs: seq<Input>) {
    forall i :: i in inputs && i.Internal? && i.e.Tick? ==> ClockOk(i.e.now)
  }

  lemma DropProtoExactly(m: Xdm, k: nat, p: Proto)
    requires AllApart(m.protos) && k < |m.protos| && p in m.protos
    ensures p in DropProto(m.protos, k) <==> p != m.protos[k]
  {
    var ps := DropProto(m.protos, k);
    var j :| 0 <= j < |m.protos| && m.protos[j] == p;
    if j != k { assert ps[if j < k then j else j - 1] == p; }
    if p in ps {
      var i :| 0 <= i < |ps| && ps[i] == p;
      assert m.protos[if i < k then i else i + 1] == p;
    }
  }

  lemma FoundProto(m: Xdm, from: Addr, num: nat, p: Proto)
    requires AllApart(m.protos) && p in m.protos
    ensures var r := FindProto(m.protos, from, num);
      IsFor(p, from, num) <==> r.Some? && m.protos[r.value] == p
  {
    var r := FindProto(m.protos, from, num);
    var j :| 0 <= j < |m.protos| && m.protos[j] == p;
    assert IsFor(p, from, num) ==> r.Some? && (r.value < j || r.value >= j);
  }

  lemma NewProtoPending(m: Xdm, from: Addr, num: nat, t: ConnType, a: seq<nat>, p: Proto)
    requires Inv(m) && m.lastId - m.base < ID_SPACE && ClockOk(m.daemon.now) && p in m.protos
    ensures var m' := NewProto(m, from, num, t, a);
      p != m'.protos[0] && (p in m'.protos <==> m.daemon.now - p.date <= PROTO_TIMEOUT)
  {
    NextIdIsNew(m);
    ExpiredExactly(p, m.daemon.now);
  }

  lemma RequestEnds(m: Xdm, from: Addr, req: Request, p: Proto)
    requires Inv(m) && m.lastId - m.base < ID_SPACE && ClockOk(m.daemon.now) && p in m.protos && !m.daemon.stopping
    ensures p !in RequestRespond(m, from, req).0.protos <==> Ends(m, Received(RequestPkt(from, req)), p)
  {
    var r, i := FindProto(m.protos, from, req.displayNumber), SelectType(req.types);
    FoundProto(m, from, req.displayNumber, p);
    if r.Some? {
      DropProtoExactly(m, r.value, p);
    } else if req.lengthOk && |req.types| > 0 && |req.addresses| == |req.types| && i.Some? {
      var m' := NewProto(m, from, req.displayNumber, req.types[i.value], req.addresses[i.value]);
      NewProtoPending(m, from, req.displayNumber, req.types[i.value], req.addresses[i.value], p);
      assert DropProto(m'.protos, 0) == m'.protos[1..];
      assert m'.protos == [m'.protos[0]] + m'.protos[1..];
    }
  }

  lemma EndsExactly(m: Xdm, i: Input, p: Proto)
    requires Inv(m) && Possible(m, i) && ClockOk(m.daemon.now) && p in m.protos
    ensures p !in Step(m, i).0.protos <==> Ends(m, i, p)
  {
    if i.Received? && !m.daemon.stopping {
      match i.p {
        case RequestPkt(from, req) => RequestEnds(m, from, req, p);
        case ManagePkt(from, id, num, lengthOk, name, cfg) =>
          FoundProto(m, from, num, p);
          var r := FindProto(m.protos, from, num);
          if r.Some? { DropProtoExactly(m, r.value, p); }
          SameId(m, p);
        case KeepAlivePkt(_, _, _, _) =>
      }
    }
  }

  ghost predicate IdGone(m: Xdm, id: nat) {
    Issued(m, id) && forall q :: q in m.protos ==> q.sessionId != id
  }

  lemma SameId(m: Xdm, p: Proto)
    requires AllApart(m.protos) && p in m.protos
    ensures forall q :: q in m.protos && q.sessionId == p.sessionId ==> q == p
  {
    var i :| 0 <= i < |m.protos| && m.protos[i] == p;
    forall q | q in m.protos && q.sessionId == p.sessionId ensures q == p {
      var j :| 0 <= j < |m.protos| && m.protos[j] == q;
      assert i < j || i == j || j < i;
    }
  }

  /** Where the pending sessions after a step come from. */
  lemma StepProtos(m: Xdm, i: Input)
    requires Inv(m) && Possible(m, i)
    ensures var m' := Step(m, i).0;
      && m'.base == m.base && (m'.lastId == m.lastId || m'.lastId == m.lastId + 1)
      && forall q :: q in m'.protos ==> q in m.protos || q.sessionId == (m.lastId + 1) % ID_SPACE
  {}

  lemma GoneStep(m: Xdm, i: Input, id: nat)
    requires Inv(m) && Possible(m, i) && IdGone(m, id)
    ensures IdGone(Step(m, i).0, id)
  {
    NextIdIsNew(m);
    IssuedMore(m, id);
    StepProtos(m, i);
    assert Step(m, i).0.lastId == m.lastId + 1 ==> Issued(m.(lastId := m.lastId + 1), id);
  }

  lemma {:induction false} GoneForGood(m: Xdm, inputs: seq<Input>, id: nat)
    requires Inv(m) && PossibleRun(m, inputs) && IdGone(m, id)
    ensures IdGone(Run(m, inputs), id)
    decreases |inputs|
  {
    if inputs != [] {
      StepInv(m, inputs[0]);
      GoneStep(m, inputs[0], id);
      GoneForGood(Step(m, inputs[0]).0, inputs[1..], id);
    }
  }

  /**
   * Through any traffic an accepted session stays pending, and can be started, until
   * one of these inputs comes. Then it is over for good.
   */
  lemma {:induction false} PendingExactly(m: Xdm, inputs: seq<Input>, p: Proto)
    requires Inv(m) && PossibleRun(m, inputs) && ClockOk(m.daemon.now) && ClockRun(inputs) && p in m.protos
    ensures p in Run(m, inputs).protos <==> !EndsIn(m, inputs, p)
    decreases |inputs|
  {
    if inputs != [] {
      var m' := Step(m, inputs[0]).0;
      StepInv(m, inputs[0]);
      EndsExactly(m, inputs[0], p);
      if Ends(m, inputs[0], p) {
        SameId(m, p);
        EndedIsGone(m, inputs[0], p);
        GoneForGood(m', inputs[1..], p.sessionId);
      } else {
        ClockStep(m, inputs);
        PendingExactly(m', inputs[1..], p);
      }
    }
  }

  lemma EndedIsGone(m: Xdm, i: Input, p: Proto)
    requires Inv(m) && Possible(m, i) && p in m.protos && p !in Step(m, i).0.protos
    ensures IdGone(Step(m, i).0, p.sessionId)
  {
    SameId(m, p);
    NextIdIsNew(m);
    IssuedMore(m, p.sessionId);
    StepProtos(m, i);
    assert Step(m, i).0.lastId == m.lastId + 1 ==> Issued(m.(lastId := m.lastId + 1), p.sessionId);
  }

  lemma ClockStep(m: Xdm, inputs: seq<Input>)
    requires inputs != [] && Inv(m) && Possible(m, inputs[0]) && ClockOk(m.daemon.now) && ClockRun(inputs)
    ensures ClockOk(Step(m, inputs[0]).0.daemon.now) && ClockRun(inputs[1..])
  {
    assert inputs[0] in inputs;
    match inputs[0] {
      case Internal(e) => StepListed(m.daemon, e);
      case Received(_) =>
    }
  }

  // ----- Packets that come again -----

  /** MANAGE has an effect exactly if it carries the pending ID of its address and display number. */
  lemma ManageActsExactly(m: Xdm, from: Addr, id: nat, num: nat, lengthOk: bool, name: Option<string>, cfg: Config)
    ensures var r := FindProto(m.protos, from, num);
      Manage(m, from, id, num, lengthOk, name, cfg).0 != m <==>
      lengthOk && r.Some? && m.protos[r.value].sessionId == id && name.Some?
  {
    var r := FindProto(m.protos, from, num);
    if lengthOk && r.Some? && m.protos[r.value].sessionId == id && name.Some? {
      assert |Manage(m, from, id, num, lengthOk, name, cfg).0.protos| == |m.protos| - 1;
    }
  }

  /** An ID that has started a display never starts or stops anything again, however late its MANAGE arrives. */
  lemma {:induction false} StartedIsInert(m: Xdm, inputs: seq<Input>, from: Addr, id: nat, num: nat, lengthOk: bool,
                                          name: Option<string>, cfg: Config)
    requires Inv(m) && PossibleRun(m, inputs) && id in m.started
    ensures var m' := Run(m, inputs); Manage(m', from, id, num, lengthOk, name, cfg).0 == m'
    decreases |inputs|
  {
    if inputs == [] {
      ManageActsExactly(m, from, id, num, lengthOk, name, cfg);
    } else {
      StepInv(m, inputs[0]);
      StartIsRecorded(m, inputs[0]);
      StartedIsInert(Step(m, inputs[0]).0, inputs[1..], from, id, num, lengthOk, name, cfg);
    }
  }

  /** An immediate copy of the packet that started a session is not even answered. */
  lemma ManageRepeatIsInert(m: Xdm, from: Addr, id: nat, num: nat, name: Option<string>, cfg: Config,
                            name2: Option<string>, cfg2: Config)
    requires Inv(m) && Manage(m, from, id, num, true, name, cfg).0 != m
    ensures var m1 := Manage(m, from, id, num, true, name, cfg).0;
      id in m1.started && Manage(m1, from, id, num, true, name2, cfg2) == (m1, NoReply)
  {
    ManageActsExactly(m, from, id, num, true, name, cfg);
    var k := FindProto(m.protos, from, num).value;
    var m1 := Manage(m, from, id, num, true, name, cfg).0;
    var ps := DropProto(m.protos, k);
    forall i | 0 <= i < |ps| ensures !IsFor(ps[i], from, num) {
      assert ps[i] == m.protos[if i < k then i else i + 1];
    }
    assert m1.daemon.ds[0].info.from == Some(from) && m1.daemon.ds[0].info.displayNumber == num;
  }

  /** Repeating an accepted REQUEST, whatever the daemon did meanwhile, changes nothing and is answered alike. */
  lemma RequestRepeatIsInert(m: Xdm, from: Addr, req: Request, s: Daemon)
    requires RequestRespond(m, from, req).1.Accept?
    ensures var (m1, reply) := RequestRespond(m, from, req);
      RequestRespond(m1.(daemon := s), from, req) == (m1.(daemon := s), reply)
  {}

  /** An accepted REQUEST followed by its MANAGE puts one new display at the head, under the accepted ID. */
  lemma Handshake(m: Xdm, from: Addr, req: Request, name: string, cfg: Config)
    requires Inv(m) && m.lastId - m.base < ID_SPACE && RequestRespond(m, from, req).1.Accept?
    ensures var (m1, reply) := RequestRespond(m, from, req);
      var (m2, reply2) := Manage(m1, from, reply.sessionId, req.displayNumber, true, Some(name), cfg);
      && reply2 == NoReply && Inv(m2) && reply.sessionId !in m.started
      && m2.started == m.started + [reply.sessionId]
      && m2.daemon.ds[0].status == NotRunning && m2.daemon.ds[0].info.sessionId == reply.sessionId
      && m2.daemon.ds[0].info.name == name
      && forall i :: 0 < i < |m2.daemon.ds| && m2.daemon.ds[i].info.name == name ==> Condemned(m2.daemon.ds[i])
  {
    var (m1, reply) := RequestRespond(m, from, req);
    RequestInv(m, from, req);
    var k := FindProto(m1.protos, from, req.displayNumber).value;
    assert m1.protos[k] in m1.protos;
    StartSessionInv(m1, k, from, name, cfg);
  }

  /** KEEPALIVE for a non-zero ID is answered "running" exactly when a running display holds that ID. */
  lemma AliveExactly(m: Xdm, from: Addr, id: nat, num: nat)
    requires Inv(m) && id != 0
    ensures var reply := SendAlive(m, from, id, num, true);
      && reply.Alive? && (reply.running ==> reply.sessionId == id)
      && (reply.running <==>
            exists i :: 0 <= i < |m.daemon.ds| &&
              m.daemon.ds[i].status == Running && m.daemon.ds[i].info.sessionId == id)
  {
    var ds := m.daemon.ds;
    var r := FindBySessionId(ds, id);
    if r.Some? {
      forall i | 0 <= i < |ds| && ds[i].info.sessionId == id ensures i == r.value {
        ByPosition(ds, i);
        ByPosition(ds, r.value);
      }
    }
  }
}

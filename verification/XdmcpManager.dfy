/**
 * xdmcp.c and protodpy.c with the proto-display list and the session counter they
 * keep in memory, next to the daemon's display list. Each handler is proved to be
 * the function of the same name in `Xdmcp`.
 */
module XdmcpManager {
  import opened Wrappers
  import opened Displays
  import opened Lifecycle
  import opened Xdmcp
  import DM = DisplayManager

  class Manager {
    const dm: DM.Manager
    const base: nat                     // the counter's random start
    var protoDisplays: seq<Proto>
    var globalSessionID: nat
    ghost var started: seq<nat>         // session IDs that were turned into displays

    ghost predicate Valid()
      reads this, dm
    {
      dm.Valid()
    }

    ghost function State(): Xdm
      reads this, dm, dm.displays
    {
      Xdm(dm.State(), protoDisplays, base, globalSessionID, started)
    }

    constructor (dm: DM.Manager, seed: nat)
      requires dm.Valid()
      ensures Valid() && this.dm == dm && State() == Xdm(dm.State(), [], seed, seed, [])
    {
      this.dm, base := dm, seed;
      protoDisplays, globalSessionID, started := [], seed, [];
    }

    // ----- protodpy.c -----

    method FindProtoDisplay(from: Addr, num: nat) returns (r: Option<nat>)
      ensures r == FindProto(protoDisplays, from, num)
    {
      var i := 0;
      while i < |protoDisplays|
        invariant 0 <= i <= |protoDisplays|
        invariant forall j :: 0 <= j < i ==> !IsFor(protoDisplays[j], from, num)
      {
        if protoDisplays[i].displayNumber == num && protoDisplays[i].addr == from {
          FirstProto(protoDisplays, from, num, i);
          return Some(i);
        }
        i := i + 1;
      }
      r := None;
    }

    method TimeoutProtoDisplays()
      modifies this`protoDisplays
      ensures protoDisplays == TimeoutProtos(old(protoDisplays), dm.now)
    {
      hide TimeoutProtos, Expired;
      var i := 0;
      assert protoDisplays[..0] == [] && protoDisplays[0..] == protoDisplays;
      while i < |protoDisplays|
        invariant 0 <= i <= |protoDisplays|
        invariant protoDisplays[..i] + TimeoutProtos(protoDisplays[i..], dm.now) ==
                  TimeoutProtos(old(protoDisplays), dm.now)
        decreases |protoDisplays| - i
      {
        TimeoutStep(protoDisplays, i, dm.now);
        if Expired(protoDisplays[i], dm.now) {
          DisposeProtoDisplay(i);
        } else {
          i := i + 1;
        }
      }
      assert protoDisplays[..i] == protoDisplays && protoDisplays[i..] == [];
      TimeoutNone(dm.now);
    }

    method DisposeProtoDisplay(k: nat)
      requires k < |protoDisplays|
      modifies this`protoDisplays
      ensures protoDisplays == DropProto(old(protoDisplays), k)
    {
      protoDisplays := protoDisplays[..k] + protoDisplays[k+1..];
    }

    method NextSessionID() returns (id: nat)
      modifies this`globalSessionID
      ensures id == globalSessionID == old(globalSessionID) + 1
    {
      globalSessionID := globalSessionID + 1;
      id := globalSessionID;
    }

    method NewProtoDisplay(from: Addr, num: nat, t: ConnType, a: seq<nat>, id: nat)
      modifies this`protoDisplays
      ensures protoDisplays ==
              [Proto(from, num, t, a, dm.now % DATE_SPACE, id % ID_SPACE)] + TimeoutProtos(old(protoDisplays), dm.now)
    {
      TimeoutProtoDisplays();
      protoDisplays := [Proto(from, num, t, a, dm.now % DATE_SPACE, id % ID_SPACE)] + protoDisplays;
    }

    // ----- xdmcp.c -----

    method SelectConnectionTypeIndex(types: seq<ConnType>) returns (r: Option<nat>)
      ensures r == SelectType(types)
    {
      var i := 0;
      while i < |types|
        invariant 0 <= i <= |types|
        invariant forall j :: 0 <= j < i ==> !Supported(types[j])
      {
        if !types[i].OtherConn? {
          FirstSupported(types, i);
          return Some(i);
        }
        i := i + 1;
      }
      r := None;
    }

    /** The rest of request_respond, once there is a proto-display. */
    method Settle(k: nat, req: Request) returns (reply: Reply)
      requires Valid() && k < |protoDisplays|
      modifies this`protoDisplays
      ensures Valid() && (State(), reply) == Xdmcp.Settle(old(State()), k, req)
    {
      if !req.authorizable {
        DisposeProtoDisplay(k);
        return Decline(NoValidAuth);
      }
      if !req.authentic {
        DisposeProtoDisplay(k);
        return Decline(NoAuthentic);
      }
      reply := Accept(protoDisplays[k].sessionId);
    }

    method RequestRespond(from: Addr, req: Request) returns (reply: Reply)
      requires Valid()
      modifies this`protoDisplays, this`globalSessionID
      ensures Valid() && (State(), reply) == Xdmcp.RequestRespond(old(State()), from, req)
      ensures Xdmcp.Inv(old(State())) && old(globalSessionID) - base < ID_SPACE ==> Xdmcp.Inv(State())
    {
      hide FindProto, SelectType, TimeoutProtos, DM.Views, Xdmcp.Inv, Xdmcp.Settle, DM.Manager.Valid;
      if Xdmcp.Inv(State()) && globalSessionID - base < ID_SPACE { RequestInv(State(), from, req); }
      if !req.lengthOk { return NoReply; }
      if |req.types| == 0 || |req.addresses| != |req.types| { return Decline(NoValidAddr); }
      var pdpy := FindProtoDisplay(from, req.displayNumber);
      if pdpy.None? {
        var i := SelectConnectionTypeIndex(req.types);
        if i.None? { return Decline(NoValidAddr); }
        var id := NextSessionID();
        NewProtoDisplay(from, req.displayNumber, req.types[i.value], req.addresses[i.value], id);
        pdpy := Some(0);
      }
      reply := Settle(pdpy.value, req);
    }

    method FindDisplayBySessionID(id: nat) returns (d: DM.DisplayRec?)
      requires Valid()
      ensures d == null <==> FindBySessionId(dm.State().ds, id).None?
      ensures d != null ==> d in dm.displays && FindBySessionId(dm.State().ds, id) == Some(dm.Pos(d))
    {
      var i := 0;
      while i < |dm.displays|
        invariant 0 <= i <= |dm.displays|
        invariant forall j :: 0 <= j < i ==> dm.displays[j].info.sessionId != id
      {
        if dm.displays[i].info.sessionId == id {
          FirstSession(dm.State().ds, id, i);
          return dm.displays[i];
        }
        i := i + 1;
      }
      d := null;
    }

    method FindDisplayByAddress(from: Addr, num: nat) returns (d: DM.DisplayRec?)
      requires Valid()
      ensures d == null <==> FindByAddress(dm.State().ds, from, num).None?
      ensures d != null ==> d in dm.displays && FindByAddress(dm.State().ds, from, num) == Some(dm.Pos(d))
    {
      var i := 0;
      while i < |dm.displays|
        invariant 0 <= i <= |dm.displays|
        invariant forall j :: 0 <= j < i ==>
                    !(dm.displays[j].info.origin == FromXdmcp && dm.displays[j].info.displayNumber == num &&
                      dm.displays[j].info.from == Some(from))
      {
        if dm.displays[i].info.origin == FromXdmcp && dm.displays[i].info.displayNumber == num &&
           dm.displays[i].info.from == Some(from) {
          FirstAddress(dm.State().ds, from, num, i);
          return dm.displays[i];
        }
        i := i + 1;
      }
      d := null;
    }

    /** The branch of manage that starts the pending session number k. */
    method StartSession(k: nat, from: Addr, name: string, cfg: Config)
      requires Valid() && k < |protoDisplays|
      modifies this`protoDisplays, this`started, dm, dm.displays
      ensures Valid() && dm.Grown() && State() == Xdmcp.StartSession(old(State()), k, from, name, cfg)
    {
      hide DM.Views, Lifecycle.StopNamed, Lifecycle.NewDisplay;
      var p := protoDisplays[k];
      dm.StopNamed(name);
      DM.SameNewDisplay(dm.State(), XdmcpInfo(name, p, from, cfg), dm.nextId);
      var d := dm.NewDisplay(XdmcpInfo(name, p, from, cfg).(id := dm.nextId));
      DisposeProtoDisplay(k);
      started := started + [p.sessionId];
    }

    /** `name` is what networkAddressToName returns for the proto-display. */
    method Manage(from: Addr, id: nat, num: nat, lengthOk: bool, name: Option<string>, cfg: Config)
      returns (reply: Reply)
      requires Valid()
      modifies this`protoDisplays, this`started, dm, dm.displays
      ensures Valid() && dm.Grown()
      ensures (State(), reply) == Xdmcp.Manage(old(State()), from, id, num, lengthOk, name, cfg)
      ensures Xdmcp.Inv(old(State())) ==> Xdmcp.Inv(State())
    {
      hide DM.Views, FindProto, FindByAddress, Xdmcp.StartSession, Xdmcp.Inv;
      if Xdmcp.Inv(State()) { ManageInv(State(), from, id, num, lengthOk, name, cfg); }
      if !lengthOk { return NoReply; }
      var pdpy := FindProtoDisplay(from, num);
      if pdpy.None? || protoDisplays[pdpy.value].sessionId != id {
        if pdpy.None? {
          var d := FindDisplayByAddress(from, num);
          if d != null && d.info.sessionId == id { return NoReply; }
        }
        return Refuse(id);
      }
      if name.None? { return Failed(id); }
      StartSession(pdpy.value, from, name.value, cfg);
      reply := NoReply;
    }

    method SendAlive(from: Addr, id: nat, num: nat, lengthOk: bool) returns (reply: Reply)
      requires Valid()
      ensures reply == Xdmcp.SendAlive(State(), from, id, num, lengthOk)
    {
      hide FindBySessionId, FindByAddress;
      if !lengthOk { return NoReply; }
      var d := FindDisplayBySessionID(id);
      if d == null {
        d := FindDisplayByAddress(from, num);
      }
      var sendRunning, sendSessionID := false, 0;
      if d != null && d.status == Running {
        if d.info.sessionId == id {
          sendRunning := true;
        }
        sendSessionID := d.info.sessionId;
      }
      reply := Alive(sendRunning, sendSessionID);
    }

    /** processRequestSocket; stoppen has closed the sockets. */
    method Receive(p: Packet) returns (reply: Reply)
      requires Valid()
      modifies this`protoDisplays, this`globalSessionID, this`started, dm, dm.displays
      ensures Valid() && dm.Grown() && (State(), reply) == Xdmcp.Step(old(State()), Received(p))
    {
      hide Xdmcp.Manage, Xdmcp.RequestRespond, Xdmcp.SendAlive, DM.Views;
      if dm.stopping { return NoReply; }
      match p {
        case RequestPkt(from, req) => reply := RequestRespond(from, req);
        case ManagePkt(from, id, num, lengthOk, name, cfg) => reply := Manage(from, id, num, lengthOk, name, cfg);
        case KeepAlivePkt(from, id, num, lengthOk) => reply := SendAlive(from, id, num, lengthOk);
      }
    }
  }

  lemma TimeoutNone(now: int)
    ensures TimeoutProtos([], now) == []
  {}

  /** Looking at one more record, from the left. */
  lemma TimeoutStep(ps: seq<Proto>, i: nat, now: int)
    requires i < |ps|
    ensures var all := ps[..i] + TimeoutProtos(ps[i..], now);
      if Expired(ps[i], now)
      then var qs := DropProto(ps, i); qs[..i] + TimeoutProtos(qs[i..], now) == all
      else ps[..i+1] + TimeoutProtos(ps[i+1..], now) == all
  {
    TimeoutHead(ps, i, now);
    hide TimeoutProtos;
    var rest := TimeoutProtos(ps[i+1..], now);
    if Expired(ps[i], now) {
      var qs := DropProto(ps, i);
      assert qs[..i] == ps[..i] && qs[i..] == ps[i+1..];
    } else {
      assert ps[..i+1] + rest == ps[..i] + ([ps[i]] + rest);
    }
  }

  lemma TimeoutHead(ps: seq<Proto>, i: nat, now: int)
    requires i < |ps|
    ensures TimeoutProtos(ps[i..], now) ==
      if Expired(ps[i], now) then TimeoutProtos(ps[i+1..], now) else [ps[i]] + TimeoutProtos(ps[i+1..], now)
  {
    assert ps[i..][0] == ps[i] && ps[i..][1..] == ps[i+1..];
    assert [] + TimeoutProtos(ps[i+1..], now) == TimeoutProtos(ps[i+1..], now);
  }

  lemma {:induction false} FirstProto(ps: seq<Proto>, from: Addr, num: nat, i: nat)
    requires i < |ps| && IsFor(ps[i], from, num) && forall j :: 0 <= j < i ==> !IsFor(ps[j], from, num)
    ensures FindProto(ps, from, num) == Some(i)
  {
    if i > 0 { FirstProto(ps[1..], from, num, i - 1); }
  }

  lemma {:induction false} FirstSupported(types: seq<ConnType>, i: nat)
    requires i < |types| && Supported(types[i]) && forall j :: 0 <= j < i ==> !Supported(types[j])
    ensures SelectType(types) == Some(i)
  {
    if i > 0 { FirstSupported(types[1..], i - 1); }
  }

  lemma {:induction false} FirstSession(ds: seq<Display>, id: nat, i: nat)
    requires i < |ds| && ds[i].info.sessionId == id && forall j :: 0 <= j < i ==> ds[j].info.sessionId != id
    ensures FindBySessionId(ds, id) == Some(i)
  {
    if i > 0 { FirstSession(ds[1..], id, i - 1); }
  }

  lemma {:induction false} FirstAddress(ds: seq<Display>, from: Addr, num: nat, i: nat)
    requires i < |ds| && ds[i].info.origin == FromXdmcp
    requires ds[i].info.displayNumber == num && ds[i].info.from == Some(from)
    requires forall j :: 0 <= j < i ==>
      !(ds[j].info.origin == FromXdmcp && ds[j].info.displayNumber == num && ds[j].info.from == Some(from))
    ensures FindByAddress(ds, from, num) == Some(i)
  {
    if i > 0 { FirstAddress(ds[1..], from, num, i - 1); }
  }
}

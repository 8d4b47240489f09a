/**
 * What becomes of the displays that MANAGE packets start: each is for one session of a
 * terminal, and once that has ended it does not come back without a new MANAGE.
 */
module XdmcpSessions {
  import opened Wrappers
  import opened Displays
  import opened Lifecycle
  import opened LifecycleInv
  import opened LifecycleLists
  import opened Xdmcp
  import XdmcpRuns

  /** A display of a terminal: transient, and with a server of its own only for a remote login. */
  predicate ForOneSession(d: Display) {
    && d.info.location == Foreign && d.info.lifetime == Transient && d.serverStatus == Ignore
    && (d.serverPid != NONE ==> d.pid == NONE && d.status in {RemoteLogin, Zombie})
    && (d.status == Zombie && d.pid != NONE ==> d.zstatus == DsRemove)
    && (d.status in {NotRunning, Phoenix, RemoteLogin, Reserve} ==> d.pid == NONE)
  }

  ghost predicate Terminals(ds: seq<Display>) {
    forall x :: Has(ds, x) && Get(ds, x).info.origin == FromXdmcp ==> ForOneSession(Get(ds, x))
  }

  // ----- One record -----

  lemma ForOneAct(f: Focus, g: Globals, e: Event)
    requires !f.gone && Aimed(f, g, e) && ForOneSession(f.d)
    ensures var f' := Act(f, g, e); f'.d.info == f.d.info && (f'.gone || ForOneSession(f'.d))
  {}

  lemma ForOneStop(f: Focus)
    requires !f.gone && ForOneSession(f.d)
    ensures var f' := StopDisplay(f); f'.d.info == f.d.info && (f'.gone || ForOneSession(f'.d))
  {}

  lemma TerminalsPutBack(s: Daemon, k: nat, f': Focus)
    requires Listed(s) && k < |s.ds| && Terminals(s.ds) && f'.d.info == s.ds[k].info
    requires ForOneSession(s.ds[k]) ==> f'.gone || ForOneSession(f'.d)
    ensures Terminals(PutBack(s, k, f').ds)
  {
    PutBackAt(s, k, f');
    hide PutBack, ForOneSession;
  }

  lemma StopIfTerminals(s: Daemon, x: nat, force: bool)
    requires Listed(s) && Terminals(s.ds)
    ensures Listed(StopIf(s, x, force)) && Terminals(StopIf(s, x, force).ds)
  {
    var k := IndexOf(s.ds, x);
    if k < |s.ds| {
      StopAtListed(s, k);
      StopDevelops(FocusAt(s, k));
      if ForOneSession(s.ds[k]) { ForOneStop(FocusAt(s, k)); }
      TerminalsPutBack(s, k, StopDisplay(FocusAt(s, k)));
    }
  }

  lemma {:induction false} StopEachTerminals(s: Daemon, ids: seq<nat>, force: bool)
    requires Listed(s) && Terminals(s.ds)
    ensures Terminals(StopEach(s, ids, force).ds)
    decreases |ids|
  {
    if ids != [] {
      StopIfTerminals(s, ids[0], force);
      StopEachTerminals(StopIf(s, ids[0], force), ids[1..], force);
    }
  }

  lemma NewTerminals(s: Daemon, info: Info)
    requires Listed(s) && Terminals(s.ds) && (info.origin == FromXdmcp ==> ForOneSession(Fresh(info)))
    requires forall i :: 0 <= i < |s.ds| && s.ds[i].info.name == info.name ==> Condemned(s.ds[i])
    ensures Terminals(NewDisplay(s, info).ds)
  {
    NewDisplayListed(s, info);
    NewDisplayGets(s, info);
    hide Listed, HeadMost, Condemned;
  }

  lemma StepTerminals(s: Daemon, e: Event)
    requires Listed(s) && LifecycleInv.Possible(s, e) && Terminals(s.ds) && !e.Admit?
    ensures Terminals(Lifecycle.Step(s, e).ds)
  {
    hide Act, PutBack, StopEach, ForOneSession, HeadMost, Condemned;
    if Target(s, e).Some? {
      var k := Target(s, e).value;
      TargetAimed(s, e);
      ActDevelops(FocusAt(s, k), GlobalsOf(s), e);
      if ForOneSession(s.ds[k]) { ForOneAct(FocusAt(s, k), GlobalsOf(s), e); }
      TerminalsPutBack(s, k, Act(FocusAt(s, k), GlobalsOf(s), e));
    } else if e.Stoppen? {
      StopEachTerminals(s, Ids(s.ds), e.force);
    } else if e.ManageCmd? && Manageable(s.ds, e.name) {
      NewTerminals(s, CommandInfo(e.name, e.cfg));
    }
  }

  lemma StopNamedTerminals(s: Daemon, name: string)
    requires Listed(s) && Terminals(s.ds)
    ensures Terminals(StopNamed(s, name).ds)
  {
    var r := FindByName(s.ds, name);
    if r.Some? {
      StopDevelops(FocusAt(s, r.value));
      if ForOneSession(s.ds[r.value]) { ForOneStop(FocusAt(s, r.value)); }
      TerminalsPutBack(s, r.value, StopDisplay(FocusAt(s, r.value)));
    }
  }

  lemma StartTerminals(m: Xdm, k: nat, from: Addr, name: string, cfg: Config)
    requires Xdmcp.Inv(m) && k < |m.protos| && Terminals(m.daemon.ds)
    ensures Terminals(StartSession(m, k, from, name, cfg).daemon.ds)
  {
    StopNamedListed(m.daemon, name);
    StopNamedTerminals(m.daemon, name);
    NewTerminals(StopNamed(m.daemon, name), XdmcpInfo(name, m.protos[k], from, cfg));
  }

  // ----- Every run -----

  lemma InputTerminals(m: Xdm, i: Input)
    requires Xdmcp.Inv(m) && Xdmcp.Possible(m, i) && Terminals(m.daemon.ds)
    ensures Terminals(Xdmcp.Step(m, i).0.daemon.ds)
  {
    match i {
      case Internal(e) => StepTerminals(m.daemon, e);
      case Received(ManagePkt(from, id, num, lengthOk, name, cfg)) =>
        var r := FindProto(m.protos, from, num);
        if r.Some? && name.Some? { StartTerminals(m, r.value, from, name.value, cfg); }
      case Received(_) =>
    }
  }

  lemma {:induction false} RunTerminals(m: Xdm, inputs: seq<Input>)
    requires Xdmcp.Inv(m) && Xdmcp.PossibleRun(m, inputs) && Terminals(m.daemon.ds)
    ensures Terminals(Xdmcp.Run(m, inputs).daemon.ds)
    decreases |inputs|
  {
    if inputs != [] {
      InputTerminals(m, inputs[0]);
      Xdmcp.StepInv(m, inputs[0]);
      RunTerminals(Xdmcp.Step(m, inputs[0]).0, inputs[1..]);
    }
  }

  /** In every run from a configured start, the displays that packets start are for one session each. */
  lemma StartedForOneSession(m: Xdm, inputs: seq<Input>)
    requires Xdmcp.Initial(m) && Xdmcp.PossibleRun(m, inputs)
    ensures var m' := Xdmcp.Run(m, inputs); Xdmcp.Inv(m') && Terminals(m'.daemon.ds)
  {
    AnyTraffic(m, inputs);
    InitialInv(m.daemon);
    InvIsListed(m.daemon);
    forall x | Has(m.daemon.ds, x) ensures Get(m.daemon.ds, x).info.origin == FromFile {
      assert m.daemon.ds[IndexOf(m.daemon.ds, x)].info.origin == FromFile;
    }
    RunTerminals(m, inputs);
  }

  // ----- The session of a terminal is its last -----

  /** The session of this display ends, with a wish to go to another host or into reserve. */
  predicate HandsOver(m: Xdm, i: Input, id: nat) {
    SessionOver(m, i, id) && i.e.exit in {ExRemote, ExReserve}
  }

  predicate SessionOver(m: Xdm, i: Input, id: nat) {
    && i.Internal? && i.e.Reap? && Has(m.daemon.ds, id)
    && Target(m.daemon, i.e) == At(m.daemon.ds, id) && Get(m.daemon.ds, id).pid == i.e.pid
  }

  lemma LastAct(f: Focus, g: Globals, exit: Exit, fork: int)
    requires !f.gone && ForOneSession(f.d) && f.d.pid != NONE && exit !in {ExRemote, ExReserve}
    ensures ReapSession(f, g, exit, fork).gone
  {}

  lemma GoneAfter(m: Xdm, i: Input, id: nat)
    requires Xdmcp.Inv(m) && Xdmcp.Possible(m, i) && Terminals(m.daemon.ds) && SessionOver(m, i, id)
    requires Get(m.daemon.ds, id).info.origin == FromXdmcp && !HandsOver(m, i, id)
    ensures !Has(Xdmcp.Step(m, i).0.daemon.ds, id)
  {
    var s, e := m.daemon, i.e;
    var k := IndexOf(s.ds, id);
    LastAct(FocusAt(s, k), GlobalsOf(s), e.exit, e.fork);
    PutBackAt(s, k, Act(FocusAt(s, k), GlobalsOf(s), e));
  }

  lemma GoneForever(m: Xdm, inputs: seq<Input>, id: nat)
    requires Xdmcp.Inv(m) && Xdmcp.PossibleRun(m, inputs) && id < m.daemon.nextId && !Has(m.daemon.ds, id)
    ensures !Has(Xdmcp.Run(m, inputs).daemon.ds, id)
  {
    XdmcpRuns.DaemonRun(m, inputs);
    RunListed(m.daemon, XdmcpRuns.SeenRun(m, inputs));
  }

  /**
   * From any configured start, under any traffic: when the session of a display that a
   * packet started ends, other than for a remote login or into reserve, the display is
   * gone, and nothing brings it back.
   */
  lemma SessionIsLast(m0: Xdm, before: seq<Input>, i: Input, after: seq<Input>, id: nat)
    requires Xdmcp.Initial(m0) && Xdmcp.PossibleRun(m0, before)
    requires var m := Xdmcp.Run(m0, before); Xdmcp.Possible(m, i) && Xdmcp.PossibleRun(Xdmcp.Step(m, i).0, after)
    requires var m := Xdmcp.Run(m0, before);
      SessionOver(m, i, id) && !HandsOver(m, i, id) && Get(m.daemon.ds, id).info.origin == FromXdmcp
    ensures var m1 := Xdmcp.Step(Xdmcp.Run(m0, before), i).0;
      !Has(m1.daemon.ds, id) && !Has(Xdmcp.Run(m1, after).daemon.ds, id)
  {
    var m := Xdmcp.Run(m0, before);
    StartedForOneSession(m0, before);
    GoneAfter(m, i, id);
    Xdmcp.StepInv(m, i);
    StepListed(m.daemon, i.e);
    GoneForever(Xdmcp.Step(m, i).0, after, id);
  }

  // ----- How many sessions -----

  /** The display has a session after the input and had none before. */
  predicate Begins(m: Xdm, i: Input, id: nat) {
    var ds, ds' := m.daemon.ds, Xdmcp.Step(m, i).0.daemon.ds;
    Has(ds, id) && Has(ds', id) && Get(ds, id).pid == NONE && Get(ds', id).pid != NONE
  }

  function Count(b: bool): nat {
    if b then 1 else 0
  }

  function Sessions(m: Xdm, inputs: seq<Input>, id: nat): nat
    decreases |inputs|
  {
    if inputs == [] then 0
    else Count(Begins(m, inputs[0], id)) + Sessions(Xdmcp.Step(m, inputs[0]).0, inputs[1..], id)
  }

  function HandOvers(m: Xdm, inputs: seq<Input>, id: nat): nat
    decreases |inputs|
  {
    if inputs == [] then 0
    else Count(HandsOver(m, inputs[0], id)) + HandOvers(Xdmcp.Step(m, inputs[0]).0, inputs[1..], id)
  }

  /** Still to have its session. */
  predicate Unused(m: Xdm, id: nat) {
    Has(m.daemon.ds, id) && Get(m.daemon.ds, id).pid == NONE
  }

  lemma UseAct(f: Focus, g: Globals, e: Event)
    requires !f.gone && Aimed(f, g, e) && ForOneSession(f.d) && f.d.pid != NONE
    ensures var f' := Act(f, g, e);
      if e.Reap? && f.d.pid == e.pid then e.exit !in {ExRemote, ExReserve} ==> f'.gone
      else !f'.gone ==> f'.d.pid == f.d.pid
  {}

  lemma StopIfKeepsPid(s: Daemon, x: nat, force: bool, id: nat)
    requires Listed(s)
    ensures var ds' := StopIf(s, x, force).ds;
      Listed(StopIf(s, x, force)) && (Has(ds', id) ==> Has(s.ds, id) && Get(ds', id).pid == Get(s.ds, id).pid)
  {
    var k := IndexOf(s.ds, x);
    if k < |s.ds| {
      StopAtListed(s, k);
      PutBackAt(s, k, StopDisplay(FocusAt(s, k)));
    }
  }

  lemma {:induction false} StopEachKeepsPid(s: Daemon, ids: seq<nat>, force: bool, id: nat)
    requires Listed(s)
    ensures var ds' := StopEach(s, ids, force).ds;
            Has(ds', id) ==> Has(s.ds, id) && Get(ds', id).pid == Get(s.ds, id).pid
    decreases |ids|
  {
    if ids != [] {
      StopIfKeepsPid(s, ids[0], force, id);
      hide StopIf, Listed;
      StopEachKeepsPid(StopIf(s, ids[0], force), ids[1..], force, id);
    }
  }

  lemma StartKeepsPid(m: Xdm, k: nat, from: Addr, name: string, cfg: Config, id: nat)
    requires Xdmcp.Inv(m) && k < |m.protos| && Has(m.daemon.ds, id)
    ensures var ds' := StartSession(m, k, from, name, cfg).daemon.ds;
      Has(ds', id) ==> Get(ds', id).pid == Get(m.daemon.ds, id).pid
  {
    var s, s1 := m.daemon, StopNamed(m.daemon, name);
    StopNamedListed(s, name);
    NewDisplayListed(s1, XdmcpInfo(name, m.protos[k], from, cfg));
    NewDisplayGets(s1, XdmcpInfo(name, m.protos[k], from, cfg));
    ListedBelow(s, id);
    var r := FindByName(s.ds, name);
    if r.Some? {
      PutBackAt(s, r.value, StopDisplay(FocusAt(s, r.value)));
    }
  }

  lemma ListedBelow(s: Daemon, id: nat)
    requires Listed(s) && Has(s.ds, id)
    ensures id < s.nextId
  {}

  /** A session stays the display's session until it ends, and then the display is gone unless it hands over. */
  lemma SessionStays(m: Xdm, i: Input, id: nat)
    requires Xdmcp.Inv(m) && Xdmcp.Possible(m, i) && Terminals(m.daemon.ds) && !HandsOver(m, i, id)
    requires Has(m.daemon.ds, id) && Get(m.daemon.ds, id).info.origin == FromXdmcp && Get(m.daemon.ds, id).pid != NONE
    ensures var ds' := Xdmcp.Step(m, i).0.daemon.ds; Has(ds', id) ==> Get(ds', id).pid != NONE
  {
    match i {
      case Internal(e) => EventKeepsSession(m, e, id);
      case Received(ManagePkt(from, session, num, lengthOk, name, cfg)) =>
        var r := FindProto(m.protos, from, num);
        if r.Some? && name.Some? { StartKeepsPid(m, r.value, from, name.value, cfg, id); }
      case Received(_) =>
    }
  }

  lemma EventKeepsSession(m: Xdm, e: Event, id: nat)
    requires Xdmcp.Inv(m) && Xdmcp.Possible(m, Internal(e)) && Terminals(m.daemon.ds) && !HandsOver(m, Internal(e), id)
    requires Has(m.daemon.ds, id) && Get(m.daemon.ds, id).info.origin == FromXdmcp && Get(m.daemon.ds, id).pid != NONE
    ensures var ds' := Lifecycle.Step(m.daemon, e).ds; Has(ds', id) ==> Get(ds', id).pid != NONE
  {
    var s := m.daemon;
    hide Act, PutBack, StopEach, ForOneSession, HeadMost, Condemned;
    if Target(s, e) == Some(IndexOf(s.ds, id)) {
      var k := Target(s, e).value;
      TargetAimed(s, e);
      ActDevelops(FocusAt(s, k), GlobalsOf(s), e);
      UseAct(FocusAt(s, k), GlobalsOf(s), e);
      PutBackAt(s, k, Act(FocusAt(s, k), GlobalsOf(s), e));
    } else if e.Stoppen? {
      StopEachKeepsPid(s, Ids(s.ds), e.force, id);
    } else {
      OthersUntouched(s, e, id);
    }
  }

  lemma UseStep(m: Xdm, i: Input, id: nat)
    requires Xdmcp.Inv(m) && Xdmcp.Possible(m, i) && Terminals(m.daemon.ds)
    requires Has(m.daemon.ds, id) && Get(m.daemon.ds, id).info.origin == FromXdmcp
    ensures var m' := Xdmcp.Step(m, i).0;
      Count(Begins(m, i, id)) + Count(Unused(m', id)) <= Count(Unused(m, id)) + Count(HandsOver(m, i, id))
  {
    if Get(m.daemon.ds, id).pid != NONE && !HandsOver(m, i, id) { SessionStays(m, i, id); }
  }

  /** Records keep their ids and origins. */
  lemma InputContinues(m: Xdm, i: Input)
    requires Xdmcp.Inv(m) && Xdmcp.Possible(m, i)
    ensures Continues(m.daemon, Xdmcp.Step(m, i).0.daemon)
  {
    XdmcpRuns.SeenStep(m, i);
    if XdmcpRuns.Seen(m, i) != [] { StepListed(m.daemon, XdmcpRuns.Seen(m, i)[0]); }
  }

  lemma {:induction false} NoMoreSessions(m: Xdm, inputs: seq<Input>, id: nat)
    requires Xdmcp.Inv(m) && Xdmcp.PossibleRun(m, inputs) && id < m.daemon.nextId && !Has(m.daemon.ds, id)
    ensures Sessions(m, inputs, id) == 0
    decreases |inputs|
  {
    if inputs != [] {
      InputContinues(m, inputs[0]);
      Xdmcp.StepInv(m, inputs[0]);
      NoMoreSessions(Xdmcp.Step(m, inputs[0]).0, inputs[1..], id);
    }
  }

  /**
   * One packet, one session: over any run, a display that a packet started has at most
   * one session, and one more for each that ends for a remote login or into reserve.
   */
  lemma {:induction false} OneSessionEach(m: Xdm, inputs: seq<Input>, id: nat)
    requires Xdmcp.Inv(m) && Xdmcp.PossibleRun(m, inputs) && Terminals(m.daemon.ds)
    requires Has(m.daemon.ds, id) && Get(m.daemon.ds, id).info.origin == FromXdmcp
    ensures Sessions(m, inputs, id) <= Count(Unused(m, id)) + HandOvers(m, inputs, id)
    decreases |inputs|
  {
    if inputs != [] {
      var m' := Xdmcp.Step(m, inputs[0]).0;
      UseStep(m, inputs[0], id);
      InputContinues(m, inputs[0]);
      InputTerminals(m, inputs[0]);
      Xdmcp.StepInv(m, inputs[0]);
      ListedBelow(m.daemon, id);
      hide Begins, HandsOver, Terminals, Xdmcp.Inv, Xdmcp.Possible, Xdmcp.Step;
      if Has(m'.daemon.ds, id) {
        OneSessionEach(m', inputs[1..], id);
      } else {
        NoMoreSessions(m', inputs[1..], id);
      }
    }
  }
}

/**
 * The main loop of dm.c in memory: whatever events select, waitpid and the sockets
 * deliver, the records go through the run of the state machine, so that what is
 * proved of runs holds of them.
 */
module DaemonLoop {
  import opened Displays
  import opened Lifecycle
  import opened LifecycleInv
  import opened DisplayManager
  import Xdmcp
  import XR = XdmcpRuns
  import XM = XdmcpManager

  type Input = Xdmcp.Input

  /** Events name records by id where the code holds a pointer. */
  method FindById(m: Manager, id: nat) returns (d: DisplayRec?)
    requires m.Valid()
    ensures d == null <==> !Has(m.State().ds, id)
    ensures d != null ==> d in m.displays && d.info.id == id
  {
    var i := 0;
    while i < |m.displays|
      invariant 0 <= i <= |m.displays|
      invariant forall j :: 0 <= j < i ==> m.displays[j].info.id != id
    {
      if m.displays[i].info.id == id {
        m.SameRec(m.displays[i]);
        return m.displays[i];
      }
      i := i + 1;
    }
    IndexOfAbsent(m.State().ds, id);
    d := null;
  }

  lemma StaleIsIdle(s: Daemon, e: Event)
    requires OneRecord(e) && !Has(s.ds, e.id)
    ensures Step(s, e) == s
  {}

  /** The timer is due only while startingServer is set. */
  lemma TimerHasServer(m: Manager)
    requires m.Valid() && Inv(m.State()) && TimerDue(m.State())
    ensures m.startingServer != null
  {}

  method HandleOne(m: Manager, d: DisplayRec, e: Event)
    requires m.Valid() && d in m.displays
    requires OneRecord(e) && d.info.id == e.id
    modifies m, m.displays
    ensures m.Valid() && m.Grown() && m.State() == Step(old(m.State()), e)
  {
    hide Step, Manager.State, Manager.Valid;
    match e {
      case Kick(_, fork) => m.Kick(d, fork);
      case StopOne(_) => m.StopOne(d);
      case SuicideCmd(_) => m.SuicideCmd(d);
      case UserSession(_, uid) => m.UserSession(d, uid);
    }
  }

  predicate OneRecord(e: Event) {
    e.Kick? || e.StopOne? || e.SuicideCmd? || e.UserSession?
  }

  method HandleCommand(m: Manager, e: Event)
    requires m.Valid() && (e.LoginCmd? || e.ReserveCmd? || e.ManageCmd? || e.UnmanageCmd? || e.Admit?)
    modifies m, m.displays
    ensures m.Valid() && m.Grown() && m.State() == Step(old(m.State()), e)
  {
    hide Step, Manager.State, Manager.Valid;
    match e {
      case LoginCmd(name, nuke) => m.LoginCmd(name, nuke);
      case ReserveCmd => var found := m.ReserveCmd();
      case ManageCmd(name, cfg) => var ok := m.ManageCmd(name, cfg);
      case UnmanageCmd(name) => m.UnmanageCmd(name);
      case Admit(info) => m.Admit(info);
    }
  }

  method HandleSignal(m: Manager, e: Event)
    requires m.Valid() && (TimerDue(m.State()) ==> m.startingServer != null)
    requires !OneRecord(e) && !(e.LoginCmd? || e.ReserveCmd? || e.ManageCmd? || e.UnmanageCmd? || e.Admit?)
    requires e.Reap? ==> e.pid > 0
    modifies m, m.displays
    ensures m.Valid() && m.Grown() && m.State() == Step(old(m.State()), e)
  {
    hide Step, Manager.State, Manager.Valid;
    match e {
      case Reap(pid, exit, fork) => m.Reap(pid, exit, fork);
      case ServerTimer(fork) => m.ServerTimer(fork);
      case ServerReady(fork) => m.ServerReady(fork);
      case XConnOk => m.XConnOk();
      case Stoppen(force) => m.Stoppen(force);
      case CancelShutdown => m.CancelShutdown();
      case ShutdownDue(due) => m.ShutdownDue(due);
      case Tick(now) => m.UpdateNow(now);
    }
  }

  method Dispatch(m: Manager, e: Event)
    requires m.Valid() && (TimerDue(m.State()) ==> m.startingServer != null) && (e.Reap? ==> e.pid > 0)
    modifies m, m.displays
    ensures m.Valid() && m.Grown() && m.State() == Step(old(m.State()), e)
  {
    hide Step, Manager.State, Manager.Valid;
    if OneRecord(e) {
      var d := FindById(m, e.id);
      if d == null { StaleIsIdle(m.State(), e); } else { HandleOne(m, d, e); }
    } else if e.LoginCmd? || e.ReserveCmd? || e.ManageCmd? || e.UnmanageCmd? || e.Admit? {
      HandleCommand(m, e);
    } else {
      HandleSignal(m, e);
    }
  }

  /** One event: the records take its step and keep the invariant. */
  method Handle(m: Manager, e: Event)
    requires m.Valid() && Inv(m.State()) && Possible(m.State(), e) && Tame(m.State(), e)
    modifies m, m.displays
    ensures m.Valid() && m.Grown() && m.State() == Step(old(m.State()), e) && Inv(m.State())
  {
    hide Step, Inv, Manager.State, Manager.Valid, Manager.Grown;
    StepInv(m.State(), e);
    if TimerDue(m.State()) { TimerHasServer(m); }
    Dispatch(m, e);
  }

  lemma NextOfRun(s: Daemon, es: seq<Event>, i: nat)
    requires i < |es| && PossibleRun(s, es[i..]) && TameRun(s, es[i..])
    ensures Possible(s, es[i]) && Tame(s, es[i])
    ensures PossibleRun(Step(s, es[i]), es[i+1..]) && TameRun(Step(s, es[i]), es[i+1..])
    ensures Run(s, es[i..]) == Run(Step(s, es[i]), es[i+1..])
  {
    hide Step, Possible, Tame;
    assert es[i..][0] == es[i] && es[i..][1..] == es[i+1..];
  }

  lemma EndOfRun(s: Daemon, es: seq<Event>)
    ensures Run(s, es[|es|..]) == s
  {}

  /** However long it runs: memory holds the state the run leads to, and the invariant. */
  method MainLoop(m: Manager, es: seq<Event>)
    requires m.Valid() && Inv(m.State()) && PossibleRun(m.State(), es) && TameRun(m.State(), es)
    modifies m, m.displays
    ensures m.Valid() && m.State() == Run(old(m.State()), es) && Inv(m.State())
  {
    hide Step, Inv, Possible, Tame, PossibleRun, TameRun, Run, Manager.State, Manager.Valid;
    assert es[0..] == es;
    for i := 0 to |es|
      invariant m.Valid() && Inv(m.State())
      invariant PossibleRun(m.State(), es[i..]) && TameRun(m.State(), es[i..])
      invariant Run(m.State(), es[i..]) == Run(old(m.State()), es)
      invariant forall j :: 0 <= j < |m.displays| ==> m.displays[j] in old(m.displays) || fresh(m.displays[j])
    {
      NextOfRun(m.State(), es, i);
      label Before:
      Handle(m, es[i]);
      forall j | 0 <= j < |m.displays| ensures m.displays[j] in old(m.displays) || fresh(m.displays[j]) {
        assert m.displays[j] in m.displays && m.Grown@Before();
        assert m.displays[j] in old@Before(m.displays) || fresh@Before(m.displays[j]);
      }
    }
    EndOfRun(m.State(), es);
  }

  // ----- With packets from the network -----

  method Take(x: XM.Manager, i: Input)
    requires x.Valid() && Inv(x.dm.State()) && Xdmcp.Possible(x.State(), i) && XR.Tame(x.State(), i)
    modifies x, x.dm, x.dm.displays
    ensures x.Valid() && x.dm.Grown() && x.State() == Xdmcp.Step(old(x.State()), i).0 && Inv(x.dm.State())
    ensures Xdmcp.Inv(old(x.State())) ==> Xdmcp.Inv(x.State())
  {
    hide Step, Inv, Xdmcp.ProtosOk, Xdmcp.StartedOk, Xdmcp.SessionsOk, Xdmcp.RequestRespond, Xdmcp.Manage;
    if Xdmcp.Inv(x.State()) { Xdmcp.StepInv(x.State(), i); }
    XR.DaemonInv(x.State(), i);
    match i {
      case Internal(e) => Handle(x.dm, e);
      case Received(p) => var reply := x.Receive(p);
    }
  }

  lemma NextInput(s: Xdmcp.Xdm, inputs: seq<Input>, i: nat)
    requires i < |inputs| && Xdmcp.PossibleRun(s, inputs[i..]) && XR.TameRun(s, inputs[i..])
    ensures Xdmcp.Possible(s, inputs[i]) && Xdmcp.PossibleRun(Xdmcp.Step(s, inputs[i]).0, inputs[i+1..])
    ensures XR.Tame(s, inputs[i]) && XR.TameRun(Xdmcp.Step(s, inputs[i]).0, inputs[i+1..])
    ensures Xdmcp.Run(s, inputs[i..]) == Xdmcp.Run(Xdmcp.Step(s, inputs[i]).0, inputs[i+1..])
  {
    hide Xdmcp.Step, Xdmcp.Possible, XR.Tame;
    assert inputs[i..][0] == inputs[i] && inputs[i..][1..] == inputs[i+1..];
  }

  lemma EndOfInputs(s: Xdmcp.Xdm, inputs: seq<Input>)
    ensures Xdmcp.Run(s, inputs[|inputs|..]) == s
  {}

  /** Whatever mix of packets and events comes: memory holds the state of the run, and the session invariant. */
  method Serve(x: XM.Manager, inputs: seq<Input>)
    requires x.Valid() && Inv(x.dm.State()) && Xdmcp.Inv(x.State())
    requires Xdmcp.PossibleRun(x.State(), inputs) && XR.TameRun(x.State(), inputs)
    modifies x, x.dm, x.dm.displays
    ensures x.Valid() && x.State() == Xdmcp.Run(old(x.State()), inputs)
    ensures Inv(x.dm.State()) && Xdmcp.Inv(x.State())
  {
    hide Inv, Xdmcp.Step, Xdmcp.Inv, Xdmcp.Possible, Xdmcp.PossibleRun, Xdmcp.Run, XR.Tame, XR.TameRun;
    hide XM.Manager.State, XM.Manager.Valid;
    assert inputs[0..] == inputs;
    for i := 0 to |inputs|
      invariant x.Valid() && Inv(x.dm.State()) && Xdmcp.Inv(x.State())
      invariant Xdmcp.PossibleRun(x.State(), inputs[i..]) && XR.TameRun(x.State(), inputs[i..])
      invariant Xdmcp.Run(x.State(), inputs[i..]) == Xdmcp.Run(old(x.State()), inputs)
      invariant forall j :: 0 <= j < |x.dm.displays| ==>
                  x.dm.displays[j] in old(x.dm.displays) || fresh(x.dm.displays[j])
    {
      NextInput(x.State(), inputs, i);
      label Before:
      Take(x, inputs[i]);
      forall j | 0 <= j < |x.dm.displays|
        ensures x.dm.displays[j] in old(x.dm.displays) || fresh(x.dm.displays[j])
      {
        assert x.dm.displays[j] in x.dm.displays && x.dm.Grown@Before();
        assert x.dm.displays[j] in old@Before(x.dm.displays) || fresh@Before(x.dm.displays[j]);
      }
    }
    EndOfInputs(x.State(), inputs);
  }
}

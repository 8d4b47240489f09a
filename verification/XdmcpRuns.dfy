/**
 * Runs with packets from the network are runs of the display state machine in
 * which accepted MANAGE packets admit displays. So what holds of its runs holds
 * with XDMCP traffic, too.
 */
module XdmcpRuns {
  import opened Wrappers
  import opened Displays
  import opened Lifecycle
  import LifecycleInv
  import LL = LifecycleLists
  import LR = LifecycleRuns
  import LI = LifecycleIdle
  import opened Xdmcp

  /** What the displays see of an input: at most one event. */
  function Seen(m: Xdm, i: Input): seq<Event> {
    match i
    case Internal(e) => [e]
    case Received(ManagePkt(from, id, num, lengthOk, name, cfg)) =>
      var r := FindProto(m.protos, from, num);
      if !m.daemon.stopping && lengthOk && r.Some? && m.protos[r.value].sessionId == id && name.Some?
      then [Admit(XdmcpInfo(name.value, m.protos[r.value], from, cfg))]
      else []
    case Received(_) => []
  }

  lemma SeenStep(m: Xdm, i: Input)
    ensures Xdmcp.Step(m, i).0.daemon == if Seen(m, i) == [] then m.daemon else Lifecycle.Step(m.daemon, Seen(m, i)[0])
  {}

  function SeenRun(m: Xdm, inputs: seq<Input>): seq<Event>
    decreases |inputs|
  {
    if inputs == [] then [] else Seen(m, inputs[0]) + SeenRun(Xdmcp.Step(m, inputs[0]).0, inputs[1..])
  }

  /** The displays go through a run of their own. */
  lemma {:induction false} DaemonRun(m: Xdm, inputs: seq<Input>)
    requires PossibleRun(m, inputs)
    ensures var es := SeenRun(m, inputs);
      && Run(m, inputs).daemon == LifecycleInv.Run(m.daemon, es)
      && LifecycleInv.PossibleRun(m.daemon, es)
    decreases |inputs|
  {
    if inputs != [] {
      var rest := SeenRun(Xdmcp.Step(m, inputs[0]).0, inputs[1..]);
      SeenStep(m, inputs[0]);
      DaemonRun(Xdmcp.Step(m, inputs[0]).0, inputs[1..]);
      if Seen(m, inputs[0]) == [] {
        assert SeenRun(m, inputs) == rest;
      } else {
        assert SeenRun(m, inputs)[1..] == rest;
      }
    }
  }

  /** A condemned display stays condemned until it is gone, and then stays gone, whatever packets arrive. */
  lemma CondemnedForever(m: Xdm, inputs: seq<Input>, id: nat)
    requires Inv(m) && PossibleRun(m, inputs) && id < m.daemon.nextId
    requires Has(m.daemon.ds, id) ==> Condemned(Get(m.daemon.ds, id))
    ensures var ds := Run(m, inputs).daemon.ds; Has(ds, id) ==> Condemned(Get(ds, id))
  {
    DaemonRun(m, inputs);
    LL.CondemnedForever(m.daemon, SeenRun(m, inputs), id);
  }

  /** All displays of a name but the head-most are condemned for good, in every state with every traffic. */
  lemma ShadowedForever(m: Xdm, inputs: seq<Input>, i: nat, j: nat)
    requires Inv(m) && PossibleRun(m, inputs)
    requires i < j < |m.daemon.ds| && m.daemon.ds[i].info.name == m.daemon.ds[j].info.name
    ensures var ds, id := Run(m, inputs).daemon.ds, m.daemon.ds[j].Id(); Has(ds, id) ==> Condemned(Get(ds, id))
  {
    LifecycleInv.ByPosition(m.daemon.ds, j);
    CondemnedForever(m, inputs, m.daemon.ds[j].Id());
  }

  // ----- With the launch slot -----

  /** No D_XConnOk report comes during a launch. */
  ghost predicate Tame(m: Xdm, i: Input) {
    i.Internal? ==> LifecycleInv.Tame(m.daemon, i.e)
  }

  ghost predicate TameRun(m: Xdm, inputs: seq<Input>)
    decreases |inputs|
  {
    inputs == [] || (Tame(m, inputs[0]) && TameRun(Xdmcp.Step(m, inputs[0]).0, inputs[1..]))
  }

  /** Packets do not touch the launch slot: traffic keeps its invariant exactly if the internal events do. */
  lemma DaemonInv(m: Xdm, i: Input)
    requires LifecycleInv.Inv(m.daemon) && Possible(m, i)
    ensures LifecycleInv.Inv(Xdmcp.Step(m, i).0.daemon) <==> Tame(m, i)
  {
    SeenStep(m, i);
    if Seen(m, i) != [] { LifecycleInv.StepInv(m.daemon, Seen(m, i)[0]); }
  }

  lemma {:induction false} DaemonRunInv(m: Xdm, inputs: seq<Input>)
    requires LifecycleInv.Inv(m.daemon) && PossibleRun(m, inputs) && TameRun(m, inputs)
    ensures LifecycleInv.Inv(Run(m, inputs).daemon)
    decreases |inputs|
  {
    if inputs != [] {
      DaemonInv(m, inputs[0]);
      DaemonRunInv(Xdmcp.Step(m, inputs[0]).0, inputs[1..]);
    }
  }

  /** No packet makes the daemon lose sight of a child; the one event that does is the retry over a stuck server. */
  lemma ChildLostExactly(m: Xdm, i: Input, id: nat, pid: int)
    requires LifecycleInv.Inv(m.daemon) && Possible(m, i) && Has(m.daemon.ds, id) && LR.Owns(Get(m.daemon.ds, id), pid)
    requires !(i.Internal? && i.e.Reap? && i.e.pid == pid)
    ensures var s, ds := m.daemon, Xdmcp.Step(m, i).0.daemon.ds;
      !(Has(ds, id) && LR.Owns(Get(ds, id), pid)) <==>
      i.Internal? && i.e.ServerTimer? && TimerDue(s) && s.starting == Some(id) &&
      Get(s.ds, id).serverStatus == Pausing && Get(s.ds, id).serverPid == pid
  {
    SeenStep(m, i);
    if Seen(m, i) != [] { LR.ChildLostExactly(m.daemon, Seen(m, i)[0], id, pid); }
  }

  /** Nor does a packet make a display with a running child leave the list. */
  lemma LeavesExactly(m: Xdm, i: Input, id: nat, pid: int)
    requires LifecycleInv.Inv(m.daemon) && Possible(m, i) && Has(m.daemon.ds, id) && LR.Owns(Get(m.daemon.ds, id), pid)
    requires !(i.Internal? && i.e.Reap? && i.e.pid == pid)
    ensures var s := m.daemon;
      !Has(Xdmcp.Step(m, i).0.daemon.ds, id) <==>
      i.Internal? && TimerDue(s) && s.starting == Some(id) && LR.LastAttemptFails(Get(s.ds, id), i.e, pid)
  {
    SeenStep(m, i);
    if Seen(m, i) != [] { LR.LeavesExactly(m.daemon, Seen(m, i)[0], id, pid); }
  }

  /** Nor does a packet leave a waiting display with a server. */
  lemma IdleExactly(m: Xdm, i: Input, id: nat)
    requires LifecycleInv.Inv(m.daemon) && Possible(m, i) && Has(m.daemon.ds, id) && !LI.Idle(Get(m.daemon.ds, id))
    ensures var ds := Xdmcp.Step(m, i).0.daemon.ds;
      (Has(ds, id) && LI.Idle(Get(ds, id))) <==>
      i.Internal? && LI.LeavesServer(m.daemon, i.e, Get(m.daemon.ds, id))
  {
    SeenStep(m, i);
    if Seen(m, i) != [] { LI.IdleExactly(m.daemon, Seen(m, i)[0], id); }
  }

  predicate NoCancel(inputs: seq<Input>) {
    forall i :: i in inputs ==> i != Internal(CancelShutdown)
  }

  lemma {:induction false} SeenNoCancel(m: Xdm, inputs: seq<Input>)
    requires NoCancel(inputs)
    ensures LR.NoCancel(SeenRun(m, inputs))
    decreases |inputs|
  {
    if inputs != [] {
      assert inputs[0] in inputs;
      assert NoCancel(inputs[1..]) by { forall i | i in inputs[1..] ensures i in inputs {} }
      SeenNoCancel(Xdmcp.Step(m, inputs[0]).0, inputs[1..]);
    }
  }

  /** A forced shutdown drains whatever packets keep arriving. */
  lemma ShutdownDrains(m: Xdm, inputs: seq<Input>)
    requires LifecycleInv.Inv(m.daemon) && NoCancel(inputs)
    requires PossibleRun(Xdmcp.Step(m, Internal(Stoppen(true))).0, inputs)
    ensures var m1 := Xdmcp.Step(m, Internal(Stoppen(true))).0; var es := SeenRun(m1, inputs);
      && LR.Collected(m1.daemon, es) <= AllProcs(m1.daemon.ds)
      && (!AnyRunning(Run(m1, inputs).daemon.ds) <==> LR.Collected(m1.daemon, es) == AllProcs(m1.daemon.ds))
  {
    var m1 := Xdmcp.Step(m, Internal(Stoppen(true))).0;
    DaemonRun(m1, inputs);
    SeenNoCancel(m1, inputs);
    LR.ShutdownDrains(m.daemon, SeenRun(m1, inputs));
  }
}

/**
 * What the display list keeps whatever becomes of the launch slot, a D_XConnOk
 * report during a launch included: records are not mixed up, condemned displays
 * stay condemned, and of each name only the head-most is not.
 */
module LifecycleLists {
  import opened Wrappers
  import opened Displays
  import opened Lifecycle
  import opened LifecycleInv

  /** Displays that wait for a server, or are the one whose server is started, have no session and are not stopped. */
  predicate Settled(d: Display, starting: Option<nat>) {
    && (d.status in {NotRunning, Phoenix, RemoteLogin, Reserve} ==> d.pid == NONE)
    && (d.serverStatus == Awaiting ==> d.status == Running && d.pid == NONE && d.serverPid == NONE)
    && (starting == Some(d.Id()) && d.serverStatus != Ignore ==> d.status == Running && d.pid == NONE)
  }

  ghost predicate Listed(s: Daemon) {
    && UniqueIds(s.ds)
    && HeadMost(s.ds)
    && (forall i :: 0 <= i < |s.ds| ==> s.ds[i].Id() < s.nextId && Settled(s.ds[i], s.starting))
  }

  lemma InvIsListed(s: Daemon)
    requires Inv(s)
    ensures Listed(s)
  {
    forall i | 0 <= i < |s.ds| ensures Settled(s.ds[i], s.starting) { assert StatusOk(s.ds[i]); }
  }

  // ----- One record -----

  /** What may become of a record, whatever the event. */
  predicate Developed(f: Focus, f': Focus) {
    && f'.d.info == f.d.info
    && (f'.starting == f.starting || f'.starting.None? || f'.starting == Some(f.d.Id()))
    && (!f'.gone ==> Settled(f'.d, f'.starting))
    && (Condemned(f.d) && !f'.gone ==> Condemned(f'.d))
  }

  lemma ExitDevelops(f: Focus, g: Globals, exit: Exit, fork: int)
    requires !f.gone && Settled(f.d, f.starting) && f.d.pid != NONE
    ensures Developed(f, ReapSession(f, g, exit, fork))
  {
    var f1 := f.(d := f.d.(pid := NONE));
    forall end, cmd ensures Developed(f, ExitDisplay(f1, g, end, cmd, fork)) {
      EndDevelops(f, g, end, cmd, fork);
    }
  }

  lemma EndDevelops(f: Focus, g: Globals, end: EndState, cmd: ServerCmd, fork: int)
    requires !f.gone && Settled(f.d, f.starting) && f.d.pid != NONE
    ensures Developed(f, ExitDisplay(f.(d := f.d.(pid := NONE)), g, end, cmd, fork))
  {}

  lemma StopDevelops(f: Focus)
    requires !f.gone && Settled(f.d, f.starting)
    ensures Developed(f, StopDisplay(f)) && (StopDisplay(f).gone || Condemned(StopDisplay(f).d))
  {}

  lemma ActDevelops(f: Focus, g: Globals, e: Event)
    requires !f.gone && Settled(f.d, f.starting) && Aimed(f, g, e)
    ensures Developed(f, Act(f, g, e))
  {
    if e.Reap? && f.d.pid == e.pid { ExitDevelops(f, g, e.exit, e.fork); }
  }

  // ----- The list -----

  /** Records keep what they were made with, and condemned ones are not revived. */
  ghost predicate Continues(s: Daemon, s': Daemon) {
    && s.nextId <= s'.nextId
    && forall x: nat :: Has(s'.ds, x) && x < s.nextId ==>
         && Has(s.ds, x) && Get(s'.ds, x).info == Get(s.ds, x).info
         && (Condemned(Get(s.ds, x)) ==> Condemned(Get(s'.ds, x)))
  }

  lemma PutBackListed(s: Daemon, k: nat, f': Focus)
    requires Listed(s) && k < |s.ds| && Developed(FocusAt(s, k), f')
    ensures Listed(PutBack(s, k, f')) && Continues(s, PutBack(s, k, f'))
  {
    var s' := PutBack(s, k, f');
    PutBackAt(s, k, f');
    PutBackPositions(s, k, f');
    hide PutBack;
    forall i | 0 <= i < |s'.ds| ensures s'.ds[i].Id() < s'.nextId && Settled(s'.ds[i], s'.starting) {
      assert Before(k, f', i) != k ==> s.ds[Before(k, f', i)].Id() != s.ds[k].Id();
    }
  }

  lemma StopAtListed(s: Daemon, k: nat)
    requires Listed(s) && k < |s.ds|
    ensures var s' := PutBack(s, k, StopDisplay(FocusAt(s, k))); Listed(s') && Continues(s, s')
  {
    StopDevelops(FocusAt(s, k));
    PutBackListed(s, k, StopDisplay(FocusAt(s, k)));
  }

  lemma {:induction false} StopEachListed(s: Daemon, ids: seq<nat>, force: bool)
    requires Listed(s)
    ensures var s' := StopEach(s, ids, force);
      Listed(s') && Continues(s, s') && s'.nextId == s.nextId && s'.now == s.now
    decreases |ids|
  {
    if ids != [] {
      var k := IndexOf(s.ds, ids[0]);
      if k < |s.ds| { StopAtListed(s, k); }
      StopEachListed(StopIf(s, ids[0], force), ids[1..], force);
    }
  }

  lemma NewDisplayListed(s: Daemon, info: Info)
    requires Listed(s)
    requires forall i :: 0 <= i < |s.ds| && s.ds[i].info.name == info.name ==> Condemned(s.ds[i])
    ensures Listed(NewDisplay(s, info)) && Continues(s, NewDisplay(s, info))
  {
    var s' := NewDisplay(s, info);
    forall i | 1 <= i < |s'.ds| ensures s'.ds[i] == s.ds[i-1] {}
    NewDisplayGets(s, info);
  }

  /** Stopping the display of that name leaves only condemned ones under it. */
  lemma StopNamedListed(s: Daemon, name: string)
    requires Listed(s)
    ensures var s' := StopNamed(s, name);
      && Listed(s') && Continues(s, s') && s'.nextId == s.nextId
      && forall i :: 0 <= i < |s'.ds| && s'.ds[i].info.name == name ==> Condemned(s'.ds[i])
  {
    var r := FindByName(s.ds, name);
    if r.Some? {
      var k, f' := r.value, StopDisplay(FocusAt(s, r.value));
      StopDevelops(FocusAt(s, k));
      StopAtListed(s, k);
      PutBackPositions(s, k, f');
    }
  }

  lemma AdmitListed(s: Daemon, info: Info)
    requires Listed(s)
    ensures var s' := NewDisplay(StopNamed(s, info.name), info); Listed(s') && Continues(s, s') && s'.now == s.now
  {
    StopNamedListed(s, info.name);
    NewDisplayListed(StopNamed(s, info.name), info);
  }

  /** Events that leave the list alone. */
  lemma QuietListed(s: Daemon, e: Event)
    requires Listed(s) && Target(s, e).None? && !e.Stoppen? && (e.Admit? ==> s.stopping)
    requires !(e.ManageCmd? && Manageable(s.ds, e.name))
    ensures var s' := Step(s, e);
      Listed(s') && Continues(s, s') && s'.nextId == s.nextId && s'.now == if e.Tick? then e.now else s.now
  {
    var s' := Step(s, e);
    assert s'.ds == s.ds && s'.nextId == s.nextId && (s'.starting == s.starting || s'.starting.None?);
    assert forall i :: 0 <= i < |s.ds| ==> Settled(s.ds[i], s.starting);
  }

  /** Every event keeps the list in order, and only "manage" and MANAGE add to it. */
  lemma StepListed(s: Daemon, e: Event)
    requires Listed(s) && Possible(s, e)
    ensures Listed(Step(s, e)) && Continues(s, Step(s, e))
    ensures !e.Admit? && !e.ManageCmd? ==> Step(s, e).nextId == s.nextId
    ensures Step(s, e).now == if e.Tick? then e.now else s.now
  {
    hide Act, StopEach, StopNamed, Settled, HeadMost, Condemned;
    if Target(s, e).Some? {
      var k := Target(s, e).value;
      TargetAimed(s, e);
      ActDevelops(FocusAt(s, k), GlobalsOf(s), e);
      PutBackListed(s, k, Act(FocusAt(s, k), GlobalsOf(s), e));
    } else if e.Stoppen? {
      StopEachListed(s, Ids(s.ds), e.force);
    } else if e.ManageCmd? && Manageable(s.ds, e.name) {
      NewDisplayListed(s, CommandInfo(e.name, e.cfg));
    } else if e.Admit? && !s.stopping {
      AdmitListed(s, e.info);
    } else {
      QuietListed(s, e);
    }
  }

  lemma OthersStay(s: Daemon, k: nat, f': Focus, id: nat)
    requires Listed(s) && k < |s.ds| && f'.d.info == s.ds[k].info
    requires Has(s.ds, id) && s.ds[k].Id() != id
    ensures var ds' := PutBack(s, k, f').ds; Has(ds', id) && Get(ds', id) == Get(s.ds, id)
  {
    PutBackAt(s, k, f');
  }

  lemma TargetOthers(s: Daemon, e: Event, id: nat)
    requires Listed(s) && Possible(s, e) && Target(s, e).Some? && Has(s.ds, id)
    requires Target(s, e) != Some(IndexOf(s.ds, id))
    ensures Has(Step(s, e).ds, id) && Get(Step(s, e).ds, id) == Get(s.ds, id)
  {
    hide Act, PutBack, Possible;
    var k := Target(s, e).value;
    TargetAimed(s, e);
    assert s.ds[k].Id() != id && Settled(s.ds[k], s.starting) by { ByPosition(s.ds, k); }
    hide Listed, Settled, Condemned, Aimed;
    ActDevelops(FocusAt(s, k), GlobalsOf(s), e);
    OthersStay(s, k, Act(FocusAt(s, k), GlobalsOf(s), e), id);
  }

  lemma AdmitOthers(s: Daemon, info: Info, id: nat)
    requires Listed(s) && Has(s.ds, id) && info.name != Get(s.ds, id).info.name
    ensures var ds' := NewDisplay(StopNamed(s, info.name), info).ds; Has(ds', id) && Get(ds', id) == Get(s.ds, id)
  {
    var s1, r := StopNamed(s, info.name), FindByName(s.ds, info.name);
    AdmitListed(s, info);
    StopNamedListed(s, info.name);
    if r.Some? {
      StopDevelops(FocusAt(s, r.value));
      ByPosition(s.ds, r.value);
      OthersStay(s, r.value, StopDisplay(FocusAt(s, r.value)), id);
    }
    hide StopNamed, HeadMost, Settled;
    NewDisplayGets(s1, info);
  }

  /** An event aimed at one display leaves every other record as it is. */
  lemma OthersUntouched(s: Daemon, e: Event, id: nat)
    requires Listed(s) && Possible(s, e) && Has(s.ds, id)
    requires !e.Stoppen? && (e.Admit? ==> e.info.name != Get(s.ds, id).info.name)
    requires Target(s, e) != Some(IndexOf(s.ds, id))
    ensures Has(Step(s, e).ds, id) && Get(Step(s, e).ds, id) == Get(s.ds, id)
  {
    hide Act, PutBack, StopNamed, Settled, HeadMost, Condemned, Possible;
    if Target(s, e).Some? {
      TargetOthers(s, e, id);
    } else if e.ManageCmd? && Manageable(s.ds, e.name) {
      StepListed(s, e);
      NewDisplayGets(s, CommandInfo(e.name, e.cfg));
    } else if e.Admit? && !s.stopping {
      AdmitOthers(s, e.info, id);
    }
  }

  // ----- Condemned for good -----

  lemma {:induction false} RunListed(s: Daemon, es: seq<Event>)
    requires Listed(s) && PossibleRun(s, es)
    ensures Listed(Run(s, es)) && Continues(s, Run(s, es))
    decreases |es|
  {
    if es != [] {
      StepListed(s, es[0]);
      RunListed(Step(s, es[0]), es[1..]);
    }
  }

  /** A condemned display stays condemned until it is gone, and then stays gone. */
  lemma CondemnedForever(s: Daemon, es: seq<Event>, id: nat)
    requires Listed(s) && PossibleRun(s, es) && id < s.nextId
    requires Has(s.ds, id) ==> Condemned(Get(s.ds, id))
    ensures Has(Run(s, es).ds, id) ==> Condemned(Get(Run(s, es).ds, id))
  {
    RunListed(s, es);
  }

  /** From any start-up state, in every run: of the displays of one name, only the head-most is not condemned. */
  lemma OnlyTheHeadMost(s0: Daemon, es: seq<Event>)
    requires Initial(s0) && PossibleRun(s0, es)
    ensures HeadMost(Run(s0, es).ds)
  {
    InitialInv(s0);
    InvIsListed(s0);
    RunListed(s0, es);
  }
}

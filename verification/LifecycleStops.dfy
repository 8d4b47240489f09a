/**
 * Who is stopped, woken and asked to end his session: what the commands, the main loop
 * and the shutdown of the daemon do to each display.
 */
module LifecycleStops {
  import opened Wrappers
  import opened Displays
  import opened Lifecycle
  import opened LifecycleInv
  import LifecycleLists
  import opened LifecycleRuns
  import opened LifecycleStarts

  // ----- Shutdown that waits for users -----

  /** Nobody is logged in, here or on a remote host. */
  predicate Inactive(d: Display) {
    d.status != RemoteLogin && d.userSess < 0
  }

  predicate Off(r: Option<Display>) {
    r.None? || Condemned(r.value)
  }

  function Record(s: Daemon, id: nat): Option<Display> {
    if Has(s.ds, id) then Some(Get(s.ds, id)) else None
  }

  lemma StopIfExactly(s: Daemon, x: nat, id: nat)
    requires Inv(s) && Has(s.ds, id)
    ensures var d, r := Get(s.ds, id), Record(StopIf(s, x, false), id);
      if x == id && Inactive(d) then Off(r) else r == Some(d)
  {
    StopIfFacts(s, x, false);
    if x == id && Inactive(Get(s.ds, id)) {
      FocusAtOk(s, IndexOf(s.ds, id));
      StopAtFacts(s, IndexOf(s.ds, id), true);
    }
  }

  lemma OffStaysOff(s: Daemon, x: nat, force: bool, id: nat)
    requires Inv(s) && Off(Record(s, id))
    ensures Inv(StopIf(s, x, force)) && Off(Record(StopIf(s, x, force), id))
  {
    StopIfFacts(s, x, force);
  }

  lemma {:induction false} StopEachOff(s: Daemon, ids: seq<nat>, force: bool, id: nat)
    requires Inv(s) && Off(Record(s, id))
    ensures Off(Record(StopEach(s, ids, force), id))
    decreases |ids|
  {
    if ids != [] {
      OffStaysOff(s, ids[0], force, id);
      hide StopIf, Off, Record, Inv;
      StopEachOff(StopIf(s, ids[0], force), ids[1..], force, id);
    }
  }

  lemma {:induction false} StopEachExactly(s: Daemon, ids: seq<nat>, id: nat)
    requires Inv(s) && Has(s.ds, id)
    ensures var d, r := Get(s.ds, id), Record(StopEach(s, ids, false), id);
      if id in ids && Inactive(d) then Off(r) else r == Some(d)
    decreases |ids|
  {
    if ids != [] {
      var x, s1 := ids[0], StopIf(s, ids[0], false);
      assert id in ids <==> id == x || id in ids[1..];
      StopIfExactly(s, x, id);
      StopIfFacts(s, x, false);
      hide StopIf, Inactive, Inv;
      if x == id && Inactive(Get(s.ds, id)) {
        StopEachOff(s1, ids[1..], false, id);
      } else {
        StopEachExactly(s1, ids[1..], id);
      }
    }
  }

  lemma IdsHas(s: Daemon, id: nat)
    requires Has(s.ds, id)
    ensures id in Ids(s.ds)
  {
    assert Ids(s.ds)[IndexOf(s.ds, id)] == id;
  }

  /** stoppen, unless forced, stops exactly the displays that nobody uses and leaves the others as they are. */
  lemma UsersAreLeftAlone(s: Daemon, id: nat)
    requires Inv(s) && Has(s.ds, id)
    ensures var d, r := Get(s.ds, id), After(s, Stoppen(false), id);
      if Inactive(d) then Off(r) else r == Some(d)
  {
    hide Inv, Inactive, StopEach;
    IdsHas(s, id);
    StopEachExactly(s, Ids(s.ds), id);
    UnforcedStep(s);
  }

  lemma UnforcedStep(s: Daemon)
    ensures Step(s, Stoppen(false)).ds == StopEach(s, Ids(s.ds), false).ds
  {}

  // ----- Who is stopped -----

  /** Somebody stops this display. */
  predicate Stops(s: Daemon, e: Event, id: nat)
    requires Has(s.ds, id)
  {
    match e
    case StopOne(_) => AimedAt(s, e, id)
    case UnmanageCmd(_) => AimedAt(s, e, id)
    case Stoppen(force) => force || Inactive(Get(s.ds, id))
    case Admit(info) => !s.stopping && info.name == Get(s.ds, id).info.name
    case _ => false
  }

  lemma StopAct(f: Focus, g: Globals, e: Event)
    requires FocusOk(f) && SlotIdle(f) && !f.gone && Aimed(f, g, e) && !Condemned(f.d) && !e.Reap?
    ensures Off(Left(Act(f, g, e))) <==> e.StopOne? || e.UnmanageCmd? || LastAttempt(f.d, f.starting, e)
  {}

  lemma StopNamedOff(s: Daemon, name: string, id: nat)
    requires Inv(s) && Has(s.ds, id) && Get(s.ds, id).info.name == name
    ensures Off(Record(StopNamed(s, name), id))
  {
    StopNamedOk(s, name);
    StopNamedFacts(s, name, id);
    var s' := StopNamed(s, name);
    if Has(s'.ds, id) { assert s'.ds[IndexOf(s'.ds, id)].info.name == name; }
  }

  lemma AdmitOff(s: Daemon, e: Event, id: nat)
    requires Inv(s) && Possible(s, e) && e.Admit? && Has(s.ds, id) && !Condemned(Get(s.ds, id))
    ensures Off(After(s, e, id)) <==> Stops(s, e, id)
  {
    if !s.stopping && e.info.name == Get(s.ds, id).info.name {
      StopNamedOff(s, e.info.name, id);
      StopNamedOk(s, e.info.name);
      NewDisplayInv(StopNamed(s, e.info.name), e.info);
      InvIds(s);
      NewDisplayGets(StopNamed(s, e.info.name), e.info);
    } else if !s.stopping {
      LifecycleLists.InvIsListed(s);
      LifecycleLists.OthersUntouched(s, e, id);
    }
  }

  lemma {:induction false} ForcedOff(s: Daemon, id: nat)
    requires Inv(s) && Has(s.ds, id)
    ensures Off(After(s, Stoppen(true), id))
  {
    ForcedStopCondemnsAll(s);
    var s' := Step(s, Stoppen(true));
    if Has(s'.ds, id) { assert Condemned(s'.ds[IndexOf(s'.ds, id)]); }
  }

  /**
   * No child having ended, a display is taken off exactly if somebody stops it, which
   * an unforced shutdown does only to displays that nobody uses, or if the last attempt
   * to start its server fails.
   */
  lemma StoppedExactly(s: Daemon, e: Event, id: nat)
    requires Inv(s) && Possible(s, e) && !e.Reap? && Has(s.ds, id) && !Condemned(Get(s.ds, id))
    ensures Off(After(s, e, id)) <==>
      Stops(s, e, id) || (AimedAt(s, e, id) && LastAttempt(Get(s.ds, id), s.starting, e))
  {
    if e.Stoppen? {
      if e.force { ForcedOff(s, id); } else { UsersAreLeftAlone(s, id); }
    } else if e.Admit? {
      AdmitOff(s, e, id);
    } else if AimedAt(s, e, id) {
      AfterTarget(s, e, id);
      StopAct(FocusOn(s, id), GlobalsOf(s), e);
    } else {
      AfterOther(s, e, id);
    }
  }

  // ----- Commands -----

  /** The session is to be ended and the display then started anew. */
  predicate AsksToEnd(d: Display, e: Event) {
    && d.status == Running && d.pid != NONE
    && (e.SuicideCmd? || (e.LoginCmd? && (d.userSess < 0 || e.nuke)))
  }

  predicate Wakes(d: Display, e: Event) {
    d.status == Reserve && (e.ReserveCmd? || e.LoginCmd?)
  }

  lemma CommandAct(f: Focus, g: Globals, e: Event)
    requires FocusOk(f) && SlotIdle(f) && !f.gone && Aimed(f, g, e) && !e.Reap?
    requires !Off(Left(Act(f, g, e)))
    ensures var d, d' := f.d, Act(f, g, e).d;
      d'.status ==
        if AsksToEnd(d, e) then Raiser
        else if Wakes(d, e) || (e.ServerReady? && e.fork == NONE) then NotRunning
        else if e.Kick? && d.status == NotRunning && (!CanStart(d) || e.fork != NONE) then Running
        else d.status
    ensures Act(f, g, e).d.userSess == if e.UserSession? then e.uid else f.d.userSess
  {}

  /**
   * Of the displays that are not taken off, one becomes a raiser exactly if "suicide"
   * or "login" finds it in a session it may end, is woken from reserve exactly by
   * "login" or "reserve", waits again if its session cannot be forked, and runs from
   * the moment it is started; nothing else but the end of a child changes a status.
   */
  lemma StatusExactly(s: Daemon, e: Event, id: nat)
    requires Inv(s) && Possible(s, e) && !e.Reap? && Has(s.ds, id) && !Off(After(s, e, id))
    ensures var d, d' := Get(s.ds, id), After(s, e, id).value;
      d'.status ==
        if !AimedAt(s, e, id) then d.status
        else if AsksToEnd(d, e) then Raiser
        else if Wakes(d, e) || (e.ServerReady? && e.fork == NONE) then NotRunning
        else if e.Kick? && d.status == NotRunning && (!CanStart(d) || e.fork != NONE) then Running
        else d.status
    ensures After(s, e, id).value.userSess ==
      if AimedAt(s, e, id) && e.UserSession? then e.uid else Get(s.ds, id).userSess
  {
    if AimedAt(s, e, id) {
      AfterTarget(s, e, id);
      CommandAct(FocusOn(s, id), GlobalsOf(s), e);
    } else if e.Stoppen? || e.Admit? {
      AfterStop(s, e, id);
    } else {
      AfterOther(s, e, id);
    }
  }

  // ----- Whom an event is for -----

  predicate NamedFirst(ds: seq<Display>, i: nat, name: string)
    requires i < |ds|
  {
    ds[i].info.name == name && forall j :: 0 <= j < i ==> ds[j].info.name != name
  }

  predicate ReserveLast(ds: seq<Display>, i: nat)
    requires i < |ds|
  {
    ds[i].status == Reserve && forall j :: i < j < |ds| ==> ds[j].status != Reserve
  }

  /** A child is the one display's that records it, a name the head-most display's, the launch the slot's. */
  predicate Concerns(s: Daemon, e: Event, i: nat)
    requires i < |s.ds|
  {
    var d := s.ds[i];
    match e
    case Kick(id, _) => d.Id() == id && !s.stopping
    case Reap(pid, _, _) => d.pid == pid || d.serverPid == pid
    case ServerTimer(_) => s.starting == Some(d.Id()) && s.timer.Some? && s.timer.value <= s.now
    case ServerReady(_) => s.starting == Some(d.Id()) && d.serverStatus == Starting
    case StopOne(id) => d.Id() == id
    case SuicideCmd(id) => d.Id() == id
    case UserSession(id, _) => d.Id() == id
    case LoginCmd(name, _) => NamedFirst(s.ds, i, name)
    case UnmanageCmd(name) => NamedFirst(s.ds, i, name) && d.info.origin == FromCommand
    case ReserveCmd => ReserveLast(s.ds, i)
    case _ => false
  }

  lemma OneConcerned(s: Daemon, e: Event, i: nat, j: nat)
    requires Inv(s) && Possible(s, e) && i < |s.ds| && j < |s.ds| && Concerns(s, e, i) && Concerns(s, e, j)
    ensures i == j
  {}

  lemma TargetConcerns(s: Daemon, e: Event)
    requires Inv(s) && Possible(s, e)
    ensures Target(s, e).Some? ==> Concerns(s, e, Target(s, e).value)
    ensures Target(s, e).None? ==> forall i :: 0 <= i < |s.ds| ==> !Concerns(s, e, i)
  {
    forall i | 0 <= i < |s.ds| && Concerns(s, e, i) ensures Target(s, e).Some? { ByPosition(s.ds, i); }
  }

  /** An event is aimed at exactly the display it concerns, if there is one. */
  lemma AimedExactly(s: Daemon, e: Event, id: nat)
    requires Inv(s) && Possible(s, e) && Has(s.ds, id)
    ensures AimedAt(s, e, id) <==> Concerns(s, e, IndexOf(s.ds, id))
  {
    var i := IndexOf(s.ds, id);
    TargetConcerns(s, e);
    if Concerns(s, e, i) { OneConcerned(s, e, i, Target(s, e).value); }
  }

  // ----- What else an event changes -----

  /** Stopping, the scheduled shutdown and the clock change by their own events only. */
  lemma GlobalsExactly(s: Daemon, e: Event)
    requires Inv(s) && Possible(s, e)
    ensures var s' := Step(s, e);
      && s'.stopping == (e.Stoppen? || (s.stopping && !e.CancelShutdown?))
      && s'.sdDue == (if e.ShutdownDue? then e.due else s.sdDue && !e.CancelShutdown?)
      && s'.now == (if e.Tick? then e.now else s.now)
  {
    LifecycleLists.InvIsListed(s);
    LifecycleLists.StepListed(s, e);
    if e.Stoppen? { StopEachGlobals(s, Ids(s.ds), e.force); }
  }

  lemma {:induction false} StopEachGlobals(s: Daemon, ids: seq<nat>, force: bool)
    ensures StopEach(s, ids, force).sdDue == s.sdDue
    decreases |ids|
  {
    if ids != [] { StopEachGlobals(StopIf(s, ids[0], force), ids[1..], force); }
  }

  /**
   * "manage" adds a display exactly if none has the name and the name does not begin
   * with a colon. It is another host's, comes first, waits to be started and comes up
   * again after each session.
   */
  lemma ManageAdds(s: Daemon, name: string, cfg: Config)
    requires Inv(s)
    ensures var s' := Step(s, ManageCmd(name, cfg));
      var new_ := (forall i :: 0 <= i < |s.ds| ==> s.ds[i].info.name != name) && !(name != "" && name[0] == ':');
      && (new_ ==>
            && |s'.ds| == |s.ds| + 1 && s'.ds[1..] == s.ds && s'.ds[0].Id() == s.nextId
            && s'.ds[0].info.name == name && s'.ds[0].info.cfg == cfg && s'.ds[0].info.origin == FromCommand
            && s'.ds[0].info.location == Foreign && s'.ds[0].info.lifetime == Permanent
            && s'.ds[0].status == NotRunning && Procs(s'.ds[0]) == 0)
      && (!new_ ==> s' == s)
  {}
}

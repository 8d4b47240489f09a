/**
 * Where the end of a session and the end of a server lead: which displays come up
 * again, go into reserve, become a remote login or leave the list.
 */
module LifecycleEnds {
  import opened Wrappers
  import opened Displays
  import opened Lifecycle
  import opened LifecycleInv
  import LifecycleLists
  import opened LifecycleRuns
  import opened LifecycleStops

  // ----- Where a display is bound -----

  /** A remote login runs, or will as soon as the local server has ended. */
  predicate ToRemote(r: Option<Display>) {
    r.Some? && (r.value.status == RemoteLogin || (r.value.status == Zombie && r.value.zstatus == DsRemote))
  }

  predicate ToReserve(r: Option<Display>) {
    r.Some? && (r.value.status == Reserve || (r.value.status == Zombie && r.value.zstatus == DsReserve))
  }

  predicate Leaving(r: Option<Display>) {
    r.None? || (r.value.status == Zombie && r.value.zstatus in {DsRemove, DsRestart})
  }

  /** To be started again, at once or as soon as the server has ended. */
  predicate Again(r: Option<Display>) {
    r.Some? && r.value.status in {NotRunning, Phoenix}
  }

  // ----- The end of a session -----

  /** Its own session is collected. */
  predicate SessionEnds(s: Daemon, e: Event, id: nat) {
    AimedAt(s, e, id) && e.Reap? && Get(s.ds, id).pid == e.pid
  }

  /** The user logged out, or the session asks for a new one. */
  predicate AsksAgain(d: Display, exit: Exit) {
    exit in {ExOpenFailed, ExSigterm, ExAlReserver, ExReserver} || (exit == ExNormal && d.info.lifetime != ReserveOnly)
  }

  /** It failed, without having been asked to end, once too often. */
  predicate FailedTooOften(d: Display, exit: Exit, now: int) {
    && exit in {ExOpenFailed, ExSigterm} && d.status != Raiser
    && (if d.info.location == Local then now - d.lastStart < 120 else d.startTries + 1 > d.info.cfg.startAttempts)
  }

  lemma EndTable(f: Focus, g: Globals, exit: Exit, fork: int)
    requires FocusOk(f) && !f.gone && f.d.pid != NONE && f.d.status != Zombie && !g.stopping && !g.sdDue
    ensures var d, r := f.d, Left(ReapSession(f, g, exit, fork));
      && (ToRemote(r) <==> exit == ExRemote && (d.serverPid != NONE || fork != NONE))
      && (ToReserve(r) <==> exit == ExReserve || (exit == ExNormal && d.info.lifetime == ReserveOnly))
      && (Leaving(r) <==>
            || exit in {ExUnmanage, ExOther}
            || (AsksAgain(d, exit) && (d.info.lifetime == Transient || FailedTooOften(d, exit, g.now))))
      && (Again(r) <==> !ToRemote(r) && !ToReserve(r) && !Leaving(r))
  {}

  /**
   * Each way in which a session can end leads to one place: a remote login exactly if
   * one was asked for, reserve exactly if that was asked for or the display is for
   * reserve only, off the list exactly if the end says so, the display is transient or
   * failed too often, and otherwise to a new start.
   */
  lemma SessionEndsExactly(s: Daemon, e: Event, id: nat)
    requires Inv(s) && Possible(s, e) && SessionEnds(s, e, id)
    requires Get(s.ds, id).status != Zombie && !s.stopping && !s.sdDue
    ensures var d, r := Get(s.ds, id), After(s, e, id);
      && (ToRemote(r) <==> e.exit == ExRemote && (d.serverPid != NONE || e.fork != NONE))
      && (ToReserve(r) <==> e.exit == ExReserve || (e.exit == ExNormal && d.info.lifetime == ReserveOnly))
      && (Leaving(r) <==>
            || e.exit in {ExUnmanage, ExOther}
            || (AsksAgain(d, e.exit) && (d.info.lifetime == Transient || FailedTooOften(d, e.exit, s.now))))
      && (Again(r) <==> !ToRemote(r) && !ToReserve(r) && !Leaving(r))
  {
    AfterTarget(s, e, id);
    EndTable(FocusOn(s, id), GlobalsOf(s), e.exit, e.fork);
    hide ReapSession, ToRemote, ToReserve, Leaving, Again, AsksAgain, FailedTooOften, Inv, FocusOk;
  }

  lemma EndDetails(f: Focus, g: Globals, exit: Exit, fork: int)
    requires FocusOk(f) && !f.gone && f.d.pid != NONE
    ensures var d, r := f.d, Left(ReapSession(f, g, exit, fork));
      r.Some? ==>
        && r.value.pid == NONE && r.value.userSess == NONE
        && r.value.serverPid == (if d.serverPid == NONE && r.value.status == RemoteLogin then fork else d.serverPid)
        && (r.value.status == Phoenix ==> d.serverPid != NONE)
        && (!g.stopping && !g.sdDue && d.status != Zombie && Again(r) ==>
              (r.value.status == Phoenix <==>
                 d.serverPid != NONE && (d.info.cfg.terminateServer || (exit != ExNormal && d.status != Raiser))))
  {}

  /**
   * A display whose session has ended has no session and no user, and its server if it
   * had one. A display that is to come up again waits for that server to end exactly
   * if the server is not kept between sessions or the session did not end well.
   */
  lemma SessionIsGone(s: Daemon, e: Event, id: nat)
    requires Inv(s) && Possible(s, e) && SessionEnds(s, e, id)
    ensures var d, r := Get(s.ds, id), After(s, e, id);
      r.Some? ==>
        && r.value.pid == NONE && r.value.userSess == NONE
        && r.value.serverPid == (if d.serverPid == NONE && r.value.status == RemoteLogin then e.fork else d.serverPid)
        && (!s.stopping && !s.sdDue && d.status != Zombie && Again(r) ==>
              (r.value.status == Phoenix <==>
                 d.serverPid != NONE && (d.info.cfg.terminateServer || (e.exit != ExNormal && d.status != Raiser))))
  {
    AfterTarget(s, e, id);
    EndDetails(FocusOn(s, id), GlobalsOf(s), e.exit, e.fork);
    hide ReapSession, Again, Inv, FocusOk;
  }

  // ----- The end of a server -----

  predicate ServerEnds(s: Daemon, e: Event, id: nat) {
    AimedAt(s, e, id) && e.Reap? && Get(s.ds, id).serverPid == e.pid
  }

  /** Stopped, and without a session that still has to end. */
  predicate Awaited(d: Display, end: EndState) {
    d.status == Zombie && d.pid == NONE && d.zstatus == end
  }

  lemma ServerTable(f: Focus, g: Globals, fork: int)
    requires FocusOk(f) && !f.gone && f.d.serverPid != NONE && !Launching(f.d)
    ensures var d, r := f.d, Left(ReapServer(f, g, fork));
      && (r.None? <==> Awaited(d, DsRemove) || Awaited(d, DsRestart))
      && (r.Some? ==>
            && r.value.pid == d.pid && r.value.info == d.info && r.value.zstatus == d.zstatus
            && (r.value.status == RemoteLogin <==> Awaited(d, DsRemote) && fork != NONE)
            && (r.value.status == Reserve <==>
                  Awaited(d, DsReserve) || (d.status == RemoteLogin && d.info.lifetime == ReserveOnly))
            && (r.value.status == NotRunning <==>
                  || d.status in {NotRunning, Phoenix}
                  || (d.status == RemoteLogin && d.info.lifetime != ReserveOnly)
                  || (Awaited(d, DsRemote) && fork == NONE))
            && (r.value.status in {Zombie, Running, Raiser, Phoenix} ==> r.value.status == d.status)
            && r.value.serverPid == (if r.value.status == RemoteLogin then fork else NONE))
  {}

  /**
   * When the server of a display ends that is not being started: a display bound for
   * removal leaves the list, one bound for a remote login becomes one, one bound for
   * reserve goes there, and any other waits for its session or its next start.
   */
  lemma ServerEndsExactly(s: Daemon, e: Event, id: nat)
    requires Inv(s) && Possible(s, e) && ServerEnds(s, e, id) && !Launching(Get(s.ds, id))
    ensures var d, r := Get(s.ds, id), After(s, e, id);
      && (r.None? <==> Awaited(d, DsRemove) || Awaited(d, DsRestart))
      && (r.Some? ==>
            && r.value.pid == d.pid && r.value.info == d.info && r.value.zstatus == d.zstatus
            && (r.value.status == RemoteLogin <==> Awaited(d, DsRemote) && e.fork != NONE)
            && (r.value.status == Reserve <==>
                  Awaited(d, DsReserve) || (d.status == RemoteLogin && d.info.lifetime == ReserveOnly))
            && (r.value.status == NotRunning <==>
                  || d.status in {NotRunning, Phoenix}
                  || (d.status == RemoteLogin && d.info.lifetime != ReserveOnly)
                  || (Awaited(d, DsRemote) && e.fork == NONE))
            && (r.value.status in {Zombie, Running, Raiser, Phoenix} ==> r.value.status == d.status)
            && r.value.serverPid == (if r.value.status == RemoteLogin then e.fork else NONE))
  {
    AfterTarget(s, e, id);
    ServerTable(FocusOn(s, id), GlobalsOf(s), e.fork);
    hide ReapServer, Inv, FocusOk;
  }

  // ----- From the one to the other -----

  /** Nobody stops this display, and its server does not end. */
  predicate Quiet(s: Daemon, e: Event, id: nat) {
    Has(s.ds, id) && !Stops(s, e, id) && !ServerEnds(s, e, id)
  }

  predicate QuietRun(s: Daemon, es: seq<Event>, id: nat)
    decreases |es|
  {
    es == [] || (Quiet(s, es[0], id) && QuietRun(Step(s, es[0]), es[1..], id))
  }

  lemma AwaitedAct(f: Focus, g: Globals, e: Event)
    requires FocusOk(f) && !f.gone && Aimed(f, g, e) && f.d.status == Zombie && f.d.pid == NONE
    requires !e.StopOne? && !e.UnmanageCmd? && (e.Reap? ==> f.d.serverPid != e.pid)
    ensures Left(Act(f, g, e)) == Some(f.d.(userSess := Act(f, g, e).d.userSess))
  {}

  lemma AwaitedStays(s: Daemon, e: Event, id: nat)
    requires Inv(s) && Possible(s, e) && Has(s.ds, id)
    requires Get(s.ds, id).status == Zombie && Get(s.ds, id).pid == NONE
    requires Quiet(s, e, id)
    ensures var d, r := Get(s.ds, id), After(s, e, id); r.Some? && r.value == d.(userSess := r.value.userSess)
  {
    if AimedAt(s, e, id) {
      AfterTarget(s, e, id);
      AwaitedAct(FocusOn(s, id), GlobalsOf(s), e);
    } else if e.Admit? {
      InvAdmitOther(s, e, id);
    } else if e.Stoppen? {
      UsersAreLeftAlone(s, id);
    } else {
      AfterOther(s, e, id);
    }
  }

  lemma InvAdmitOther(s: Daemon, e: Event, id: nat)
    requires Inv(s) && Possible(s, e) && e.Admit? && Has(s.ds, id) && !Stops(s, e, id)
    ensures After(s, e, id) == Some(Get(s.ds, id))
  {
    if !s.stopping {
      LifecycleLists.InvIsListed(s);
      LifecycleLists.OthersUntouched(s, e, id);
    }
  }

  /** A stopped display keeps its end in mind while its server ends, however long that takes. */
  lemma {:induction false} AwaitedRun(s: Daemon, es: seq<Event>, id: nat)
    requires Inv(s) && PossibleRun(s, es) && TameRun(s, es) && QuietRun(s, es, id)
    requires Has(s.ds, id) && Get(s.ds, id).status == Zombie && Get(s.ds, id).pid == NONE
    ensures var d, ds' := Get(s.ds, id), Run(s, es).ds;
            Has(ds', id) && Get(ds', id) == d.(userSess := Get(ds', id).userSess)
    decreases |es|
  {
    if es != [] {
      StepInv(s, es[0]);
      AwaitedStays(s, es[0], id);
      AwaitedRun(Step(s, es[0]), es[1..], id);
    }
  }

  /**
   * From the end of the session to the end of the server, whatever happens to other
   * displays in between: a remote login comes about exactly if it was asked for, and
   * reserve exactly if that was.
   */
  lemma SessionThenServer(s: Daemon, e: Event, es: seq<Event>, e': Event, id: nat)
    requires Inv(s) && Possible(s, e) && SessionEnds(s, e, id) && Get(s.ds, id).serverPid != NONE
    requires Get(s.ds, id).status != Zombie && !s.stopping && !s.sdDue
    requires var s1 := Step(s, e); PossibleRun(s1, es) && TameRun(s1, es) && QuietRun(s1, es, id)
    requires var s2 := Run(Step(s, e), es); Possible(s2, e') && ServerEnds(s2, e', id)
    requires After(s, e, id).Some? && After(s, e, id).value.status == Zombie
    ensures var d, r := Get(s.ds, id), After(Run(Step(s, e), es), e', id);
      && (r.Some? && r.value.status == RemoteLogin <==> e.exit == ExRemote && e'.fork != NONE)
      && (r.Some? && r.value.status == Reserve <==>
            e.exit == ExReserve || (e.exit == ExNormal && d.info.lifetime == ReserveOnly))
      && (r.None? <==> e.exit !in {ExRemote, ExReserve} && !(e.exit == ExNormal && d.info.lifetime == ReserveOnly))
  {
    var s1, d1 := Step(s, e), After(s, e, id).value;
    var s2 := Run(s1, es);
    SessionEndsExactly(s, e, id);
    SessionIsGone(s, e, id);
    StepInv(s, e);
    AwaitedRun(s1, es, id);
    RunInv(s1, es);
    ZombieNotLaunching(s2, id);
    ServerEndsExactly(s2, e', id);
    hide Inv, Possible, ServerEnds, SessionEnds, Step, Run;
  }

  lemma ZombieNotLaunching(s: Daemon, id: nat)
    requires Inv(s) && Has(s.ds, id) && Get(s.ds, id).status == Zombie
    ensures !Launching(Get(s.ds, id))
  {
    assert StatusOk(Get(s.ds, id));
  }
}

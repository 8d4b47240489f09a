/**
 * How long the daemon keeps trying: which ends of sessions make it give a permanent
 * display up, whatever happens to the other displays in between, and when a session
 * that ends is the last one.
 */
module LifecycleRetries {
  import opened Wrappers
  import opened Displays
  import opened Lifecycle
  import opened LifecycleInv
  import opened LifecycleLists
  import opened LifecycleRuns
  import opened LifecycleEnds
  import opened LifecycleStarts

  /** Not listed any more, or only until its processes have ended. */
  predicate Disabled(s: Daemon, id: nat) {
    Has(s.ds, id) ==> Condemned(Get(s.ds, id))
  }

  /** The ends after which a permanent display comes up again. */
  predicate Restarts(exit: Exit) {
    exit in {ExOpenFailed, ExSigterm, ExNormal, ExAlReserver, ExReserver}
  }

  /** It ends by itself and in failure; "suicide" and "login" make the display a raiser. */
  predicate Fails(s: Daemon, e: Event, id: nat) {
    SessionEnds(s, e, id) && e.exit in {ExOpenFailed, ExSigterm} && Get(s.ds, id).status != Raiser
  }

  /** Nobody stops the display, and its sessions end so that it comes up again. */
  predicate LeftAlone(s: Daemon, e: Event, id: nat)
    requires Has(s.ds, id)
  {
    && !s.stopping && !s.sdDue && !e.Stoppen?
    && (e.StopOne? || e.UnmanageCmd? ==> Target(s, e) != At(s.ds, id))
    && (e.Admit? ==> e.info.name != Get(s.ds, id).info.name)
    && (SessionEnds(s, e, id) ==> Restarts(e.exit))
  }

  predicate LeftAloneRun(s: Daemon, es: seq<Event>, id: nat)
    decreases |es|
  {
    es == [] || Disabled(s, id) || (LeftAlone(s, es[0], id) && LeftAloneRun(Step(s, es[0]), es[1..], id))
  }

  lemma {:induction false} DisabledForever(s: Daemon, es: seq<Event>, id: nat)
    requires Listed(s) && PossibleRun(s, es) && id < s.nextId && Disabled(s, id)
    ensures Disabled(Run(s, es), id)
  {
    CondemnedForever(s, es, id);
  }

  // ----- Foreign displays -----

  /** Whether the session that ends with this event, if one does, has failed. */
  function Outcome(s: Daemon, e: Event, id: nat): seq<bool> {
    if SessionEnds(s, e, id) then [Fails(s, e, id)] else []
  }

  /** How the sessions of this display ended that did so during the run. */
  function Outcomes(s: Daemon, es: seq<Event>, id: nat): seq<bool>
    decreases |es|
  {
    if es == [] then [] else Outcome(s, es[0], id) + Outcomes(Step(s, es[0]), es[1..], id)
  }

  /** The sessions from i to j fail in a row, and with the failures counted before them they are too many. */
  predicate TooMany(failed: seq<bool>, tries: nat, limit: nat, i: nat, j: nat) {
    && i <= j <= |failed|
    && (forall k :: i <= k < j ==> failed[k])
    && j - i + (if i == 0 then tries else 0) > limit
  }

  ghost predicate GivesUp(failed: seq<bool>, tries: nat, limit: nat) {
    exists i: nat, j: nat :: TooMany(failed, tries, limit, i, j)
  }

  /** A failure counts on, anything else starts the count anew. */
  lemma GivesUpFirst(x: bool, rest: seq<bool>, tries: nat, limit: nat)
    requires tries <= limit
    ensures GivesUp([x] + rest, tries, limit) <==>
      if x then tries + 1 > limit || GivesUp(rest, tries + 1, limit) else GivesUp(rest, 0, limit)
  {
    var xs, now := [x] + rest, if x then tries + 1 else 0;
    assert forall k :: 1 <= k < |xs| ==> xs[k] == rest[k-1];
    if i: nat, j: nat :| TooMany(xs, tries, limit, i, j) {
      var i' := if i == 0 then 0 else i - 1;
      assert j > 0 && (i == 0 ==> xs[0]);
      forall k | i' <= k < j - 1 ensures rest[k] { assert xs[k+1]; }
      assert TooMany(rest, now, limit, i', j - 1);
    }
    if i: nat, j: nat :| TooMany(rest, now, limit, i, j) {
      var i' := if i == 0 && x then 0 else i + 1;
      forall k | i' <= k < j + 1 ensures xs[k] { if k > 0 { assert rest[k-1]; } }
      assert TooMany(xs, tries, limit, i', j + 1);
    }
    if x && tries + 1 > limit { assert TooMany(xs, tries, limit, 0, 1); }
  }

  lemma NothingGivesUp(tries: nat, limit: nat)
    requires tries <= limit
    ensures !GivesUp([], tries, limit)
  {}

  /** A permanent display of another host, waiting or in a session. */
  predicate IsForeign(d: Display) {
    d.info.location == Foreign && d.info.lifetime == Permanent && d.status != Zombie && d.serverStatus == Ignore
  }

  /** The failures in a row after the event. */
  function Tries(s: Daemon, e: Event, id: nat): nat
    requires Has(s.ds, id)
  {
    if Fails(s, e, id) then Get(s.ds, id).startTries + 1
    else if SessionEnds(s, e, id) then 0
    else Get(s.ds, id).startTries
  }

  lemma ForeignAct(f: Focus, g: Globals, e: Event)
    requires !f.gone && IsForeign(f.d) && Aimed(f, g, e) && !g.stopping && !g.sdDue
    requires !e.StopOne? && !e.UnmanageCmd? && !e.Stoppen?
    requires e.Reap? && f.d.pid == e.pid ==> Restarts(e.exit)
    ensures var f' := Act(f, g, e);
      var ends := e.Reap? && f.d.pid == e.pid;
      var fails := ends && e.exit in {ExOpenFailed, ExSigterm} && f.d.status != Raiser;
      var tries := if fails then f.d.startTries + 1 else if ends then 0 else f.d.startTries;
      if fails && tries > f.d.info.cfg.startAttempts then f'.gone || Condemned(f'.d)
      else !f'.gone && IsForeign(f'.d) && f'.d.info == f.d.info && f'.d.startTries == tries
  {}

  lemma ForeignStep(s: Daemon, e: Event, id: nat)
    requires Listed(s) && Possible(s, e) && Has(s.ds, id) && IsForeign(Get(s.ds, id)) && LeftAlone(s, e, id)
    ensures var s', d := Step(s, e), Get(s.ds, id);
      if Fails(s, e, id) && Tries(s, e, id) > d.info.cfg.startAttempts then Disabled(s', id)
      else Has(s'.ds, id) && IsForeign(Get(s'.ds, id)) && Get(s'.ds, id).info == d.info
           && Get(s'.ds, id).startTries == Tries(s, e, id)
  {
    hide Act, PutBack, Possible, Settled, HeadMost, Condemned, IsForeign;
    if Target(s, e) == Some(IndexOf(s.ds, id)) {
      var k := IndexOf(s.ds, id);
      TargetAimed(s, e);
      ForeignAct(FocusAt(s, k), GlobalsOf(s), e);
      ActDevelops(FocusAt(s, k), GlobalsOf(s), e);
      PutBackAt(s, k, Act(FocusAt(s, k), GlobalsOf(s), e));
    } else {
      OthersUntouched(s, e, id);
    }
  }

  /**
   * Whatever else happens in the run, a foreign display is given up exactly if more
   * than startAttempts of its sessions in a row fail.
   */
  lemma {:induction false} ForeignGivenUpExactly(s: Daemon, es: seq<Event>, id: nat)
    requires Listed(s) && PossibleRun(s, es) && LeftAloneRun(s, es, id)
    requires Has(s.ds, id) && IsForeign(Get(s.ds, id))
    requires Get(s.ds, id).startTries <= Get(s.ds, id).info.cfg.startAttempts
    ensures var d := Get(s.ds, id);
      Disabled(Run(s, es), id) <==> GivesUp(Outcomes(s, es, id), d.startTries, d.info.cfg.startAttempts)
    decreases |es|
  {
    var d := Get(s.ds, id);
    var limit := d.info.cfg.startAttempts;
    if es == [] {
      NothingGivesUp(d.startTries, limit);
    } else {
      var s' := Step(s, es[0]);
      hide Fails, SessionEnds, Tries, GivesUp, Outcomes, LeftAlone, IsForeign;
      hide Listed, Continues, Condemned, LeftAloneRun, PossibleRun;
      assert !Disabled(s, id) by { ForeignIsListed(s, id); }
      FirstOfRun(s, es, id);
      FirstOutcome(s, es, id, limit);
      ForeignStep(s, es[0], id);
      StepListed(s, es[0]);
      IdsBelow(s, id);
      if Tries(s, es[0], id) > limit {
        NextIds(s, s');
        DisabledForever(s', es[1..], id);
      } else {
        ForeignGivenUpExactly(s', es[1..], id);
      }
    }
  }

  lemma ForeignIsListed(s: Daemon, id: nat)
    requires Has(s.ds, id) && IsForeign(Get(s.ds, id))
    ensures !Disabled(s, id)
  {}

  lemma IdsBelow(s: Daemon, id: nat)
    requires Listed(s) && Has(s.ds, id)
    ensures id < s.nextId
  {}

  lemma NextIds(s: Daemon, s': Daemon)
    requires Continues(s, s')
    ensures s.nextId <= s'.nextId
  {}

  lemma FirstOutcome(s: Daemon, es: seq<Event>, id: nat, limit: nat)
    requires es != [] && Has(s.ds, id) && Get(s.ds, id).startTries <= limit
    ensures var tries := Tries(s, es[0], id);
      && GivesUp(Outcomes(s, es, id), Get(s.ds, id).startTries, limit) ==
         (tries > limit || GivesUp(Outcomes(Step(s, es[0]), es[1..], id), tries, limit))
      && (tries > limit ==> Fails(s, es[0], id))
  {
    hide SessionEnds, GivesUp, Step, Target;
    var rest := Outcomes(Step(s, es[0]), es[1..], id);
    if SessionEnds(s, es[0], id) { GivesUpFirst(Fails(s, es[0], id), rest, Get(s.ds, id).startTries, limit); }
    else { assert Outcomes(s, es, id) == rest; }
  }

  lemma FirstOfRun(s: Daemon, es: seq<Event>, id: nat)
    requires es != [] && PossibleRun(s, es) && LeftAloneRun(s, es, id) && !Disabled(s, id)
    ensures Possible(s, es[0]) && PossibleRun(Step(s, es[0]), es[1..])
    ensures LeftAlone(s, es[0], id) && LeftAloneRun(Step(s, es[0]), es[1..], id)
  {}

  // ----- Local displays -----

  predicate IsLocal(d: Display) {
    d.info.location == Local && d.info.lifetime == Permanent && d.status != Zombie
  }

  /** A session that was started at the given time fails within two minutes. */
  predicate FailsEarly(s: Daemon, e: Event, id: nat, since: int) {
    Fails(s, e, id) && s.now - since < 120
  }

  /** A session fails early, or the last attempt to start the server fails. */
  predicate GivenUp(s: Daemon, e: Event, id: nat, since: int) {
    FailsEarly(s, e, id, since) || (AimedAt(s, e, id) && LastAttempt(Get(s.ds, id), s.starting, e))
  }

  /** `since` is the time at which the session was forked. */
  predicate TimedSince(s: Daemon, id: nat, since: int) {
    Has(s.ds, id) && Get(s.ds, id).pid != NONE ==> Get(s.ds, id).lastStart == since
  }

  lemma LocalAct(f: Focus, g: Globals, e: Event)
    requires FocusOk(f) && SlotIdle(f) && !f.gone && IsLocal(f.d) && Aimed(f, g, e) && !g.stopping && !g.sdDue
    requires !e.StopOne? && !e.UnmanageCmd? && !e.Stoppen?
    requires e.Reap? && f.d.pid == e.pid ==> Restarts(e.exit)
    ensures var f' := Act(f, g, e);
      var early := e.Reap? && f.d.pid == e.pid && e.exit in {ExOpenFailed, ExSigterm} && f.d.status != Raiser
                   && g.now - f.d.lastStart < 120;
      if early || LastAttempt(f.d, f.starting, e) then f'.gone || Condemned(f'.d)
      else !f'.gone && IsLocal(f'.d) && f'.d.info == f.d.info
  {}

  lemma LocalStep(s: Daemon, e: Event, id: nat, since: int)
    requires Inv(s) && Possible(s, e) && Has(s.ds, id) && IsLocal(Get(s.ds, id)) && LeftAlone(s, e, id)
    requires TimedSince(s, id, since)
    ensures var s' := Step(s, e);
      if GivenUp(s, e, id, since) then Disabled(s', id) else Has(s'.ds, id) && IsLocal(Get(s'.ds, id))
  {
    hide Act, PutBack, Possible, HeadMost, Condemned, IsLocal, FocusOk, Moved, SlotOk, LastAttempt, Settled;
    if Target(s, e) == Some(IndexOf(s.ds, id)) {
      var k, f' := TargetBecomes(s, e);
      LocalAct(FocusAt(s, k), GlobalsOf(s), e);
    } else {
      InvIsListed(s);
      OthersUntouched(s, e, id);
    }
  }

  /** The time at which the session after the event was forked. */
  function NewSince(s: Daemon, e: Event, id: nat, since: int): int {
    if StartsSession(s, e, id) then s.now else since
  }

  lemma TimedStep(s: Daemon, e: Event, id: nat, since: int)
    requires Inv(s) && Possible(s, e) && Has(s.ds, id) && TimedSince(s, id, since)
    ensures TimedSince(Step(s, e), id, NewSince(s, e, id, since))
  {
    if Has(Step(s, e).ds, id) { StartTimes(s, e, id); }
  }

  /** Some event of the run makes the daemon give the display up. */
  ghost predicate GivenUpIn(s: Daemon, es: seq<Event>, id: nat, since: int)
    decreases |es|
  {
    es != [] &&
    (GivenUp(s, es[0], id, since) || GivenUpIn(Step(s, es[0]), es[1..], id, NewSince(s, es[0], id, since)))
  }

  /**
   * Whatever else happens in the run, a local display is disabled exactly if one of
   * its sessions fails within two minutes of its own fork without having been asked to
   * end, or the last attempt to start its server fails.
   */
  lemma {:induction false} LocalGivenUpExactly(s: Daemon, es: seq<Event>, id: nat, since: int)
    requires Inv(s) && PossibleRun(s, es) && TameRun(s, es) && LeftAloneRun(s, es, id)
    requires Has(s.ds, id) && IsLocal(Get(s.ds, id)) && TimedSince(s, id, since)
    ensures Disabled(Run(s, es), id) <==> GivenUpIn(s, es, id, since)
    decreases |es|
  {
    if es != [] {
      var s', e := Step(s, es[0]), es[0];
      hide GivenUp, LeftAlone, Inv, Condemned, IsLocal, Listed, Continues, TimedSince, NewSince;
      assert !Disabled(s, id) by { LocalIsListed(s, id); }
      FirstOfRun(s, es, id);
      LocalStep(s, e, id, since);
      TimedStep(s, e, id, since);
      StepInv(s, e);
      if GivenUp(s, e, id, since) {
        InvIsListed(s);
        IdsBelow(s, id);
        StepListed(s, e);
        NextIds(s, s');
        DisabledForever(s', es[1..], id);
      } else {
        LocalGivenUpExactly(s', es[1..], id, NewSince(s, e, id, since));
      }
    } else {
      LocalIsListed(s, id);
    }
  }

  lemma LocalIsListed(s: Daemon, id: nat)
    requires Has(s.ds, id) && IsLocal(Get(s.ds, id))
    ensures !Disabled(s, id)
  {}

  // ----- Shutdown -----

  lemma EndsForGood(f: Focus, g: Globals, exit: Exit, fork: int)
    requires FocusOk(f) && !f.gone && f.d.pid != NONE && (g.sdDue || g.stopping)
    ensures var f' := ReapSession(f, g, exit, fork); f'.gone || Condemned(f'.d)
  {}

  /**
   * If a session ends while a shutdown is due or under way, its display never comes
   * back: whatever happens later, even if the shutdown is cancelled.
   */
  lemma LastSession(s: Daemon, pid: int, exit: Exit, fork: int, es: seq<Event>)
    requires Inv(s) && (s.sdDue || s.stopping) && FindByPid(s.ds, pid).Some?
    requires PossibleRun(s, [Reap(pid, exit, fork)] + es)
    ensures var id := s.ds[FindByPid(s.ds, pid).value].Id(); Disabled(Run(s, [Reap(pid, exit, fork)] + es), id)
  {
    var e, k := Reap(pid, exit, fork), FindByPid(s.ds, pid).value;
    var id := s.ds[k].Id();
    assert ([e] + es)[1..] == es;
    var k', f' := TargetBecomes(s, e);
    EndsForGood(FocusAt(s, k), GlobalsOf(s), exit, fork);
    hide Act, PutBack, FocusOk, Moved, HeadMost, Listed, Continues;
    InvIsListed(s);
    StepListed(s, e);
    IdsBelow(s, id);
    NextIds(s, Step(s, e));
    DisabledForever(Step(s, e), es, id);
  }
}

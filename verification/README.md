# KDM verification

A Dafny model of the K Display Manager's main process and of parts of its
configuration tools, with proofs of what they keep over whole runs. `dafny verify
dfyconfig.toml` checks everything.

| Files | Model of |
|---|---|
| `Displays`, `Lifecycle`, `LifecycleInv`, `LifecycleLists`, `LifecycleRuns`, `LifecycleIdle`, `LifecycleStarts`, `LifecycleStops`, `LifecycleEnds`, `LifecycleRetries` | the state machine of displays and X server launches: `dm.c`, `server.c`, `dpylist.c` and the display commands of `ctrl.c`, on values |
| `DisplayManager`, `DaemonLoop` | the same functions on the records and globals they change, each proved to be its counterpart on values, and the main loop |
| `Xdmcp`, `XdmcpAnswers`, `XdmcpRuns`, `XdmcpSessions`, `XdmcpManager` | REQUEST, MANAGE and KEEPALIVE of `xdmcp.c` with `protodpy.c`, on values and in memory |
| `CStrings`, `IniLines`, `IniLens`, `IniFile`, `IniMerge`, `IniParts`, `IniBuilt` | the byte-level editor of `inifile.c`: what a file means, the laws of reading and writing, the loops over buffers, merging |
| `Args`, `ArgsBuffers` | `splitArgs` and `joinArgs` of `genkdmconf.c` and `parseArgs` of `util.c` |
| `ConfigLine`, `ArgsTokens`, `ArgsReaders`, `ArgsLines` | the values on the lines of `kdmrc` as `genkdmconf.c` takes them and as `kdm_config.c` decodes them, and what the two make of command lines |
| `Glob`, `AccessLists`, `AccessOrder`, `Access` | host patterns and access rules of `access.c` |
| `Choices` | the indirect-host list of `choose.c` |
| `Users` | the user and group list of `kcm/main.cpp` |
| `Entropy` | `addEntropy` of `genauth.c` and `crc32s` of `sessreg.c` |

How the state machine is set up: every function of `dm.c` and `server.c` touches
one display record and the launch slot (`startingServer`, `serverTimeout`), so it
is a function on a `Focus`. An `Event` picks the record; `Step` puts the result
back. What the operating system decides is part of the event: the pid that
`fork` returns, which child ended and how, the time. `Possible` asks of the
environment only that a fork returns a pid that no display records.

## What the proofs show about the code

- `processDPipe` clears `startingServer` on `D_XConnOk` whoever sent it. The
  launch slot stays consistent exactly if no launch is under way
  (`XConnOkExactly`); otherwise the pending timer dereferences a null pointer
  (`XConnOkThenTimerCrashes`), and a user who logs out while another display's
  server is starting is enough (`LogoutDuringLaunchCrashes`). The invariant holds
  throughout a run exactly if no report comes then (`Tame`, `InvRunExactly`).
- A server that survives SIGKILL is forgotten when the launch is retried, since
  its pid is overwritten (`ChildLostExactly`). It is the only way to lose a child.
  If the last attempt then cannot fork, the display leaves the list while that
  server runs (`LeavesExactly`); a run reaches it (`StuckServerIsLeftBehind`).
- The comment "this cannot happen" on servers that exit on a display that waits
  to be started is wrong (`IdleServerMayDie`). A waiting display has a server
  exactly after one of two events (`IdleExactly`): a session ends and its server is
  kept, or the server is ready and the session cannot be forked. The comment holds
  throughout a run exactly if neither occurs (`NoneIdleExactly`).
- Writing a value with leading blanks leaves them in the file for good
  (`PutTwiceExactly`).
- The merging reader takes a key that starts with `#` for a comment; the getter
  does not. A merged file is asked first exactly if it has no such key
  (`MergeBuiltExactly`, `IniBuilt.ReadersAgreeExactly`).
- `patternMatch` rejects strings that a pattern ending in two stars should accept
  (`RightExactly`, `TwoStarsDiffer`).
- `joinArgs` writes nothing for an empty argument, so empty arguments do not
  survive (`RoundTrip`).
- The comment "double-escaped" of genkdmconf holds for what `joinArgs` writes
  (`ArgsLines.RoundTrip`) and for every text of which just the backslashes are doubled
  (`StoredReadsAsDecoded`), but not for every line: `a\sb` is one word for `splitArgs`
  and two for the daemon, which decodes it first (`LoneBackslashDiffers`). The exact
  set of such lines is in `ArgsReaders.ReadersAgreeExactly`.

## Model

| member | source | states |
|---|---|---|
| `DisplayManager.DisplayRec.constructor` | kdm/backend/dpylist.c:246-285 | A new record waits to be started, with no session, no server and no launch under way |
| `DisplayManager.Manager.FindDisplayByPid` | kdm/backend/dpylist.c:144-152 | Returns the head-most record whose session has the pid, and null only if there is none |
| `DisplayManager.Manager.FindDisplayByServerPid` | kdm/backend/dpylist.c:155-163 | The same for X servers |
| `DisplayManager.Manager.FindDisplayByName` | kdm/backend/dpylist.c:133-141 | The same for names |
| `DisplayManager.Manager.AnyRunningDisplays` | kdm/backend/dpylist.c:49-64 | True exactly if some display is neither waiting to be started nor held in reserve |
| `DisplayManager.Manager.RemoveDisplay` | kdm/backend/dpylist.c:195-230 | Exactly the given record leaves the list; the order of the others stays |
| `DisplayManager.Manager.NewDisplay` | kdm/backend/dpylist.c:246-285 | The new record is put at the head, in front of an unchanged list |
| `DisplayManager.Manager.AbortStartServer` | kdm/backend/server.c:127-138 | In memory: frees the launch slot and disarms the timer only if this display held them; nothing else changes |
| `DisplayManager.Manager.StartRemoteLogin` | kdm/backend/dm.c:630-665 | In memory: the forked server is recorded and the status follows whether fork worked |
| `DisplayManager.Manager.RStopDisplay` | kdm/backend/dm.c:1567-1602 | In memory: a display with children becomes a zombie that remembers its end, one without goes to its end at once; the launch slot is no longer its own |
| `DisplayManager.Manager.StartServerFailed` | kdm/backend/server.c:150-164 | In memory: pauses while attempts are left, otherwise gives the slot back and stops the display |
| `DisplayManager.Manager.StartServerOnce` | kdm/backend/server.c:76-117 | In memory: one attempt is counted and forked; a failed fork is a failed attempt |
| `DisplayManager.Manager.StartServerTimeout` | kdm/backend/server.c:167-195 | In memory: each launch phase goes to the next one with its own timeout |
| `DisplayManager.Manager.KickDisplay` | kdm/backend/dm.c:1349-1356 | In memory: starts a waiting display, and its server if the slot is free |
| `DisplayManager.Manager.ExitDisplay` | kdm/backend/dm.c:1610-1672 | In memory: what becomes of a display whose session ended, for every exit, server command, shutdown and stop state |
| `DisplayManager.Manager.ReapSession` | kdm/backend/dm.c:971-1046 | In memory: each exit code of a session child leads to its own end state and server command |
| `DisplayManager.Manager.ReapServer` | kdm/backend/dm.c:1047-1137 | In memory: the death of an X server, for every status of its display |
| `DisplayManager.Manager.Reap` | kdm/backend/dm.c:962-1145 | In memory: one collected child makes the daemon take exactly the step of that event, sessions being looked up before servers, and the invariant is kept |
| `DisplayManager.Manager.ServerTimer` | kdm/backend/dm.c:1269-1272 | In memory: in every round of the main loop, a timer that ran out is disarmed and acted on, otherwise nothing happens; the one thing asked is a startingServer when the timer is due |
| `DisplayManager.Manager.ServerReady` | kdm/backend/server.c:140-148 | In memory: SIGUSR1 is its step of the state machine, whether or not a server is starting, and keeps the invariant |
| `DisplayManager.Manager.XConnOk` | kdm/backend/dm.c:792-794 | In memory: clears the launch slot and nothing else, whoever reports; keeps the invariant between launches |
| `DisplayManager.Manager.StopEachDisplay` | kdm/backend/dpylist.c:106-115 | Records that leave the list while it is being walked do not disturb the walk: every display is stopped, or only the inactive ones |
| `DisplayManager.Manager.Kick` | kdm/backend/dm.c:1455-1464 | In memory: starting one display is its step, and nothing while the daemon is stopping |
| `DisplayManager.Manager.StopOne` | kdm/backend/dm.c:1604-1608 | In memory: stopping one display is its step; the invariant is kept |
| `DisplayManager.Manager.CancelShutdown` | kdm/backend/dm.c:951-957 | In memory: withdraws the stop and the scheduled shutdown and changes no display; the rescan of the configuration that follows (dm.c:958) is left out |
| `DisplayManager.Manager.UserSession` | kdm/backend/dm.c:734-740 | In memory: the report of who uses a display is its step; the shutdown request that D_UnUser may hand over (dm.c:741-762) is left out, it reaches the daemon as ShutdownDue |
| `DisplayManager.Manager.Admit` | kdm/backend/xdmcp.c:979-1036 | In memory: the head-most display of the name is stopped, and the new one put in front of all; the invariant is kept |
| `DisplayManager.Manager.Stoppen` | kdm/backend/dm.c:667-687 | In memory: the step of stoppen, forced or not, with the invariant kept |
| `DisplayManager.Manager.SuicideCmd` | kdm/backend/ctrl.c:793-799 | The step of a "suicide" command |
| `DisplayManager.Manager.LoginCmd` | kdm/backend/ctrl.c:805-855 | The step of a "login" command |
| `DisplayManager.Manager.ReserveCmd` | kdm/backend/dpylist.c:89-104 | Wakes the display that is last in the list among those in reserve, and says whether there was one |
| `DisplayManager.Manager.ManageCmd` | kdm/backend/ctrl.c:860-898 | A display is added exactly if its name does not start with a colon and is not managed yet |
| `DisplayManager.Manager.UnmanageCmd` | kdm/backend/ctrl.c:899-912 | Only displays that were added by command can be taken away by command |
| `LifecycleInv.KickDisplayOk` | kdm/backend/dm.c:1349-1561 | Starting a display keeps its status in agreement with its children and the launch slot consistent |
| `LifecycleInv.ExitDisplayOk` | kdm/backend/dm.c:1567-1672 | So does every way in which a session can end |
| `LifecycleInv.ReapServerOk` | kdm/backend/dm.c:1047-1137 | So does the death of a server |
| `LifecycleInv.StartServerTimeoutOk` | kdm/backend/server.c:150-195 | So does every timeout of a launch |
| `LifecycleInv.StepInv` | kdm/backend/dm.c:962-1672 | A step keeps the invariant if and only if it is not a D_XConnOk report during a launch. The invariant: statuses agree with the recorded children, no child is recorded twice, of each name only the head-most display is not condemned, at most one launch is under way, it is the one in the slot, and the timer runs exactly then. XDMCP admissions are steps, too |
| `LifecycleInv.InvRunExactly` | kdm/backend/dm.c:1204-1333 | A run keeps the invariant throughout if and only if no such report comes during a launch |
| `LifecycleInv.RunInv` | kdm/backend/dm.c:1204-1333 | At the end of every run without such a report the invariant holds |
| `LifecycleInv.ReachableInv` | kdm/backend/dm.c:1204-1333 | From every configured start: the exact condition for the invariant to hold all along, whatever else happens |
| `LifecycleInv.InitialInv` | kdm/backend/resource.c:428-483 | What the configuration sets up satisfies the invariant |
| `LifecycleRuns.ChildLostExactly` | kdm/backend/server.c:167-195 | A child that still runs is forgotten, or its display leaves the list, exactly when a launch is retried over a server that survived SIGKILL; never otherwise |
| `LifecycleRuns.LeavesExactly` | kdm/backend/server.c:76-164 | A display with a child that still runs leaves the list if and only if the last attempt to start its server cannot fork, after a server that survived SIGKILL |
| `LifecycleRuns.StuckServerIsLeftBehind` | kdm/backend/server.c:76-195 | A concrete run from a configured start ends with an empty list while the forked server was never collected |
| `LifecycleRuns.ReapedIsForgotten` | kdm/backend/dm.c:962-1145 | A collected child is recorded by no display any more |
| `LifecycleLists.OthersUntouched` | kdm/backend/dm.c:962-1145 | An event for one display changes no other record, whatever state the launch slot is in |
| `LifecycleRuns.AdmitFacts` | kdm/backend/xdmcp.c:979-1036 | Admitting a display stops the head-most one of its name and leaves every other record as it was |
| `LifecycleRuns.TimeoutInLaunchOnly` | kdm/backend/server.c:167-195 | The two cases marked "cannot happen" cannot |
| `LifecycleRuns.ReservedHasNoServer` | kdm/backend/dm.c:1130-1136 | Of the cases marked "this cannot happen", a reserve display indeed has no server to lose |
| `LifecycleIdle.IdleExactly` | kdm/backend/dm.c:1610-1672 | A display comes to wait for its start with a live server if and only if its session ends, it is to come up again and nothing tells the server to end, or its server has got ready and the session cannot be forked |
| `LifecycleIdle.ReapsIdleExactly` | kdm/backend/dm.c:1130-1136 | The case marked "this cannot happen" for a display that waits can be reached by some event exactly in the states in which a waiting display has a server |
| `LifecycleIdle.NoneIdleExactly` | kdm/backend/dm.c:1130-1136 | Throughout a run with a consistent launch slot no waiting display has a server if and only if no event of the run is one of those two |
| `LifecycleIdle.NoneIdleFromStart` | kdm/backend/dm.c:1130-1136 | In particular for every such run from a configured start |
| `LifecycleIdle.IdleServerMayDie` | kdm/backend/dm.c:1130-1136 | An ordinary log-out leads there: a concrete run from a configured start, after which the death of the server reaches that case |
| `LifecycleLists.StepListed` | kdm/backend/dm.c:962-1672 | Whatever becomes of the launch slot, a D_XConnOk report during a launch included, every event keeps records with their ids and settings, never revives a condemned display, and leaves of each name only the head-most one not condemned |
| `LifecycleLists.CondemnedForever` | kdm/backend/dm.c:1567-1608 | Through every run, such reports included, a condemned display stays condemned until it is gone, and its id never comes back |
| `LifecycleLists.OnlyTheHeadMost` | kdm/backend/dpylist.c:133-141 | In every run from a configured start, at most the head-most display of a name is not condemned, so looking a name up finds the one that counts |
| `LifecycleEnds.SessionEndsExactly` | kdm/backend/dm.c:971-1046 | When a session ends outside of a shutdown, its display goes to a remote login if and only if that was asked for, into reserve if and only if that was asked for or it is for reserve only, off the list if and only if the exit says so, it is transient or failed too often, and otherwise comes up again |
| `LifecycleEnds.SessionIsGone` | kdm/backend/dm.c:1610-1672 | After that it has no session, no user and the server it had; a display that comes up again waits for that server to end if and only if servers are not kept or the session did not end well |
| `LifecycleEnds.ServerEndsExactly` | kdm/backend/dm.c:1047-1137 | When a server ends that is not being launched, its display leaves the list if and only if it was bound for removal, becomes a remote login if and only if it was bound for one, and so for reserve; otherwise it waits |
| `LifecycleEnds.SessionThenServer` | kdm/backend/dm.c:1567-1602 | From the end of a session to the end of its server, whatever happens to other displays in between: a remote login comes about if and only if one was asked for, and so for reserve; any other stopped display is gone |
| `LifecycleStarts.StartsExactly` | kdm/backend/dm.c:1349-1561 | A session starts if and only if its process can be forked, and the display waits and needs no server, or its server has got ready |
| `LifecycleStarts.TimedFromItsFork` | kdm/backend/dm.c:1545-1561 | Over every run with a consistent launch slot, the recorded start of a session is the time of the event that forked it |
| `LifecycleStarts.ServerStartsExactly` | kdm/backend/server.c:76-125 | A server starts if and only if it can be forked, and a display takes the free slot, a paused launch goes on, or a remote login begins |
| `LifecycleStarts.PhasesExactly` | kdm/backend/server.c:76-195 | A launch goes from starting to terminated, killed, pausing and again starting, one phase at a time, only when its timer runs out, its server dies or it begins, and each phase has its full time |
| `LifecycleStarts.SlotExactly` | kdm/backend/server.c:119-148 | A display takes the free launch slot when it is started and needs a server, and while it runs keeps it, also when its server is ready, until a D_XConnOk report |
| `LifecycleStops.UsersAreLeftAlone` | kdm/backend/dm.c:668-687 | stoppen(False) stops exactly the displays that nobody uses and leaves the others as they are |
| `LifecycleStops.StoppedExactly` | kdm/backend/dm.c:1567-1608 | No child having ended, a display is taken off if and only if it is stopped, by command, shutdown or a MANAGE of its name, or the last attempt to start its server fails |
| `LifecycleStops.StatusExactly` | kdm/backend/ctrl.c:793-855 | "suicide" and "login" make a raiser of exactly the displays whose session they may end; only "login" and "reserve" wake a display from reserve; no other event but the end of a child changes a status, except that a started display runs and one whose session cannot be forked waits |
| `LifecycleStops.AimedExactly` | kdm/backend/dpylist.c:89-163 | An event is aimed at a display if and only if the display records that child, is the head-most of that name, the last in reserve, or the one in the launch slot, as the event asks |
| `LifecycleStops.GlobalsExactly` | kdm/backend/dm.c:675-687 | The daemon is stopping exactly from a stop to its cancellation, a scheduled shutdown is due as the schedule says until it is cancelled, and the clock is that of updateNow |
| `LifecycleStops.ManageAdds` | kdm/backend/ctrl.c:860-898 | "manage" adds a display if and only if none has the name and the name does not begin with a colon: in front, waiting, of another host, and permanent |
| `LifecycleRuns.ForcedStopCondemnsAll` | kdm/backend/dm.c:667-687 | After stoppen(True) every display is a zombie bound for removal, the slot is free and the timer is off |
| `LifecycleRuns.DrainStep` | kdm/backend/dm.c:1204-1221 | From then on no step adds a child, and each known child that is collected lowers their number by one |
| `LifecycleRuns.DrainRun` | kdm/backend/dm.c:1204-1221 | Over a run, the number of children falls by exactly those collected |
| `LifecycleRuns.ShutdownDrains` | kdm/backend/dm.c:1204-1221 | The main loop may exit exactly when all children recorded at the stop have been collected |
| `LifecycleRuns.LaunchStep` | kdm/backend/server.c:76-195 | Each timeout or server death lowers a measure of the launch (attempts left, phase, server alive); every other event leaves it |
| `LifecycleRuns.LaunchEnds` | kdm/backend/server.c:76-195 | However events interleave, a launch with limited attempts sees boundedly many timeouts and deaths, and never forks more servers than it may |
| `LifecycleInv.XConnOkExactly` | kdm/backend/dm.c:792-794 | A D_XConnOk report keeps the launch slot consistent exactly if no launch is under way |
| `LifecycleRuns.XConnOkThenTimerCrashes` | kdm/backend/dm.c:1269-1272 | If one is, the pending timer leads to a null dereference |
| `LifecycleRuns.LogoutDuringLaunchCrashes` | kdm/backend/dm.c:792-794 | A concrete run from a two-display configuration reaches it by an ordinary log-out |
| `LifecycleRetries.ForeignGivenUpExactly` | kdm/backend/dm.c:1610-1672 | In every run, whatever happens to other displays in between and to the launch slot, a foreign display that nobody stops is given up if and only if more than startAttempts of its sessions in a row fail unasked, failures counted before included |
| `LifecycleRetries.LocalGivenUpExactly` | kdm/backend/dm.c:1610-1672 | In every run with a consistent launch slot, a local display that nobody stops is disabled if and only if some session of its fails within two minutes of the event that forked it, without having been asked to end, or the last attempt to start its server fails |
| `LifecycleRetries.LastSession` | kdm/backend/dm.c:1610-1637 | If a session ends while a shutdown is due or under way, its display, stopped before or not, never comes back in any later run, even if the shutdown is cancelled |
| `DaemonLoop.Handle` | kdm/backend/dm.c:1204-1333 | In memory: every event the environment can produce, except a D_XConnOk report during a launch, takes the records through its step and keeps the invariant; no null dereference |
| `DaemonLoop.MainLoop` | kdm/backend/dm.c:1204-1333 | In memory: over any series of events without a D_XConnOk report during a launch, the records and globals hold the state of that run, so what is proved of runs holds of them |
| `DaemonLoop.Serve` | kdm/backend/xdmcp.c:1083-1128 | In memory: the same for any mix of packets and events without a D_XConnOk report during a launch, with the invariants of slot and sessions |
| `XdmcpManager.Manager.FindProtoDisplay` | kdm/backend/protodpy.c:43-56 | Returns the first pending session of this address and display number, or none only if there is none |
| `XdmcpManager.Manager.TimeoutProtoDisplays` | kdm/backend/protodpy.c:58-68 | Disposing while walking removes exactly the expired entries, in place |
| `XdmcpManager.Manager.NewProtoDisplay` | kdm/backend/protodpy.c:70-103 | The new pending session is put in front of those that have not expired |
| `XdmcpManager.Manager.SelectConnectionTypeIndex` | kdm/backend/policy.c:244-271 | The first supported type, or none only if none is supported |
| `XdmcpManager.Manager.RequestRespond` | kdm/backend/xdmcp.c:729-868 | In memory: the REQUEST handler does to the lists and the counter, and answers, what the specification function says |
| `XdmcpManager.Manager.Manage` | kdm/backend/xdmcp.c:915-1043 | In memory: the MANAGE handler, including the stop of an active display of the same name |
| `XdmcpManager.Manager.SendAlive` | kdm/backend/xdmcp.c:1045-1080 | The KEEPALIVE handler changes nothing and answers as specified |
| `Xdmcp.ExpiredExactly` | kdm/backend/protodpy.c:58-68 | With the clock that updateNow sets (dm.c:343-354), which is never below 10000 seconds, the unsigned comparison means "older than 30 minutes" |
| `Xdmcp.EndsExactly` | kdm/backend/xdmcp.c:729-1036 | One input takes a pending session away if and only if it is its own MANAGE, a REQUEST of its own that is declined, or any REQUEST that makes a new session when it is older than 30 minutes |
| `Xdmcp.PendingExactly` | kdm/backend/xdmcp.c:729-1036 | Through any traffic, a pending session can still be started at the end if and only if no such input came |
| `Xdmcp.NextIdIsNew` | kdm/backend/xdmcp.c:309-320 | While fewer than 2^32 ids have been issued, the next one differs from all of them even after truncation |
| `Xdmcp.StepInv` | kdm/backend/xdmcp.c:729-1043 | Every packet and every internal event, a D_XConnOk report during a launch included, keeps: ids of pending sessions are distinct, were issued and have not been started; one pending session per address and number; each XDMCP display has an id of its own that was started |
| `Xdmcp.RunInv` | kdm/backend/xdmcp.c:729-1043 | So does every run |
| `Xdmcp.StartsAreRecorded` | kdm/backend/xdmcp.c:979-1036 | The record of started ids is exactly the sequence of ids of the displays that packets brought into being |
| `Xdmcp.AnyTraffic` | kdm/backend/xdmcp.c:729-1080 | Whatever packets arrive, lost, repeated, reordered or forged, and whatever becomes of the launch slot, no id starts two displays over the whole run |
| `Xdmcp.ManageActsExactly` | kdm/backend/xdmcp.c:944-1036 | MANAGE has an effect if and only if it carries the pending id of its own address and display number and a name can be found |
| `Xdmcp.StartedIsInert` | kdm/backend/xdmcp.c:944-966 | In every later state of every run, a MANAGE with an id that has started a display changes nothing |
| `Xdmcp.ManageRepeatIsInert` | kdm/backend/xdmcp.c:944-966 | An immediate copy of an effective MANAGE is not even answered |
| `Xdmcp.RequestRepeatIsInert` | kdm/backend/xdmcp.c:787-868 | A repeated accepted REQUEST is answered with the same id and changes nothing, whatever the displays did meanwhile |
| `Xdmcp.Handshake` | kdm/backend/xdmcp.c:729-1043 | REQUEST, its Accept and the MANAGE with that id put exactly one fresh display at the head; all others of that name are condemned |
| `Xdmcp.AliveExactly` | kdm/backend/xdmcp.c:1045-1080 | For a non-zero id the answer is "running" exactly if a running display holds that id |
| `XdmcpManager.Manager.Receive` | kdm/backend/xdmcp.c:1083-1128 | In memory: each packet is its step of the specification, and none after a stop |
| `XdmcpAnswers.RequestAnswer` | kdm/backend/xdmcp.c:729-868 | A REQUEST is declined for the first thing that is wrong with it, and accepted if and only if nothing is |
| `XdmcpAnswers.RequestLeaves` | kdm/backend/xdmcp.c:787-868 | An accepted REQUEST leaves one session pending under the id of the answer: the one there was, or a new one dated now with an unissued id and the first address that can be reached; a declined one leaves none |
| `XdmcpAnswers.ManageAnswer` | kdm/backend/xdmcp.c:940-1036 | MANAGE is refused if and only if its id is not the pending one, but for a copy to a display managed under it; it fails if and only if the id is pending and there is no name |
| `XdmcpAnswers.AliveInstead` | kdm/backend/xdmcp.c:1045-1080 | With no running display under a non-zero id the answer is "not running", with the id that runs at the address instead, if no display has the id |
| `XdmcpSessions.StartedForOneSession` | kdm/backend/xdmcp.c:1004-1012 | In every run from a configured start, each display that a packet started is transient and has a server of its own only for a remote login |
| `XdmcpSessions.SessionIsLast` | kdm/backend/dm.c:1637-1640 | In every run from a configured start, under any traffic: when the session of such a display ends, other than for a remote login or into reserve, the display is gone and nothing brings it back |
| `XdmcpSessions.OneSessionEach` | kdm/backend/xdmcp.c:979-1036 | Over every run such a display has at most one session, plus one for each that ended for a remote login or into reserve |
| `XdmcpRuns.DaemonRun` | kdm/backend/xdmcp.c:979-1036 | Under any traffic the displays go through a run of their own state machine, in which accepted MANAGE packets admit displays |
| `XdmcpRuns.CondemnedForever` | kdm/backend/xdmcp.c:979-1004 | Over every run with MANAGE, commands, stops and reports, a condemned display stays condemned until it is gone, and its id never comes back |
| `XdmcpRuns.ShadowedForever` | kdm/backend/dpylist.c:133-142 | Of two displays of one name, the one behind is condemned for the rest of every run |
| `XdmcpRuns.DaemonInv` | kdm/backend/xdmcp.c:979-1036 | Packets keep the invariant of the launch slot: an input breaks it if and only if it is a D_XConnOk report during a launch |
| `XdmcpRuns.ChildLostExactly` | kdm/backend/xdmcp.c:979-1036 | No packet makes the daemon lose a running child; the retry over a stuck server remains the only event that does |
| `XdmcpRuns.LeavesExactly` | kdm/backend/xdmcp.c:979-1036 | No packet makes a display with a running child leave the list; the exact condition stays the same |
| `XdmcpRuns.IdleExactly` | kdm/backend/xdmcp.c:979-1036 | No packet leaves a waiting display with a server; the exact condition stays the same |
| `XdmcpRuns.ShutdownDrains` | kdm/backend/dm.c:667-687 | A forced shutdown drains whatever packets keep arriving |
| `IniFile.Scan` | kdm/backend/inifile.c:123-161 | One pass over the buffer finds the entry with the place of its value, or, if there is none, the ends of the section and of what comes before |
| `IniFile.Read` | kdm/backend/inifile.c:117-163 | The getter returns the trimmed value of the first visible entry, for every terminated text |
| `IniFile.Build` | kdm/backend/inifile.c:164-204 | The computed size is exactly what is written: pieces in order, one NUL at the end |
| `IniFile.Write` | kdm/backend/inifile.c:117-204 | The setter fills a fresh buffer to the last byte with the edited text, in the replace, insert and new-section case and for no data |
| `IniLines.JoinLines` | kdm/backend/inifile.c:109-116 | Terminated texts are the same thing as lists of lines |
| `IniLens.PutPlaces` | kdm/backend/inifile.c:123-204 | A new entry goes right behind the last line of its section, a new section behind the last line of all with a blank line before it; all other lines stay as they are |
| `IniLens.PutThenGet` | kdm/backend/inifile.c:116-204 | What is written is read back, trimmed |
| `IniLens.PutKeepsOthers` | kdm/backend/inifile.c:116-204 | Every other entry reads as before |
| `IniLens.PutTwiceExactly` | kdm/backend/inifile.c:116-204 | Writing two values is writing the second, byte for byte, if and only if the first has no leading blank |
| `IniLens.PutWhatWasRead` | kdm/backend/inifile.c:116-204 | Writing back what was read changes nothing if and only if the value in the file has no trailing blanks |
| `IniLens.TextLens` | kdm/backend/inifile.c:116-204 | On text: the result is again a terminated text of lines, and the value is read back |
| `IniLens.TextLensOthers` | kdm/backend/inifile.c:116-204 | On text: every other entry reads as before |
| `IniLens.TextPutTwice` | kdm/backend/inifile.c:116-204 | On text: the exact condition for the second write to hide the first |
| `IniMerge.NextToken` | kdm/backend/inifile.c:214-252 | The reading half of the merge loop, token by token on the buffer |
| `IniMerge.Merge` | kdm/backend/inifile.c:206-260 | Merging is writing the assignments read from the new text one after the other, and never hands the editor a name or value it could not write |
| `IniMerge.AssignsAreValid` | kdm/backend/inifile.c:214-252 | Whatever the new text holds, the sections, keys and values read out of it are fit for writing |
| `IniMerge.PutAllReads` | kdm/backend/inifile.c:116-204 | After any series of writes an entry reads as the last value written to it, trimmed, or as before |
| `IniMerge.MergeReads` | kdm/backend/inifile.c:206-260 | Last writer wins: each entry reads as its last assignment in the new text, or else as before; for every old file and every new text |
| `IniMerge.MergeKeepsLines` | kdm/backend/inifile.c:206-260 | The merged file is again a text of whole lines |
| `IniParts.PartThenRest` | kdm/backend/inifile.c:214-252 | What a part of whole lines gives does not depend on what follows it, and the reading goes on behind it in the section it ends with |
| `IniParts.CommentsAreSkipped` | kdm/backend/inifile.c:223-229 | A comment or an empty line between two parts of a text changes nothing |
| `IniParts.HeaderRead` | kdm/backend/inifile.c:230-238 | A name in brackets sets the section, and the reading goes on behind it in the same line |
| `IniParts.EntryRead` | kdm/backend/inifile.c:239-252 | A key, an equals sign and a value give one assignment of both without the blanks around them, in the section read last, and none outside any section |
| `IniParts.MalformedStops` | kdm/backend/inifile.c:230-243 | Behind a line without its bracket or equals sign nothing counts |
| `IniBuilt.ReadersAgreeExactly` | kdm/backend/inifile.c:116-260 | For any writes into an empty file, the merging reader and the getter agree on every entry if and only if no key starts with a number sign |
| `IniBuilt.HashKeyIsLost` | kdm/backend/inifile.c:223-229 | Every write of such a key is found by the getter and not by the merging reader |
| `IniBuilt.MergeBuiltExactly` | kdm/backend/client.c:1203-1206 | Merging a file built by writes is asking it first and the old file second, for all old files and entries, if and only if none of its keys starts with a number sign |
| `IniBuilt.MergeBuilt` | kdm/backend/session.c:354-363 | In particular for each old file and entry, for keys without a number sign |
| `ConfigLine.RawLine` | kdm/kfrontend/genkdmconf.c:2527-2533 | The loops of genkdmconf take from a line what is behind the equals sign, without the white space around it |
| `ConfigLine.DecodeLine` | kdm/kfrontend/kdm_config.c:557-581 | In place: the loop of the daemon leaves the decoded value in the buffer, with blanks and tabs at the end dropped unless escaped, and a lone backslash at the end dropped |
| `ConfigLine.ValueOfEncoded` | kdm/kfrontend/kdm_config.c:557-581 | Every text that does not begin with a form feed or vertical tab is read back from a line on which its white space and backslashes are escaped |
| `ArgsLines.StoredReadsAsDecoded` | kdm/kfrontend/genkdmconf.c:1224-1310 | For every text: with every backslash doubled, and blanks, tabs and line ends as they are, splitArgs reads it as parseArgs reads it undoubled, unclosed quotes included |
| `ArgsLines.DecodeDoubled` | kdm/kfrontend/kdm_config.c:560-581 | What the daemon decodes from the doubled text is the text, but for blanks and tabs at its end |
| `ArgsReaders.ReadersAgreeExactly` | kdm/kfrontend/kdm_config.c:557-581 | For every line: what splitArgs makes of the value as genkdmconf takes it, and what parseArgs makes of it as the daemon decodes it, is the same if and only if the value has no odd escape, unless both meet a quote that is not closed. Odd are: inside single quotes, a lone backslash before s, t, n or r; elsewhere an escape of one backslash before one of these or at the end of the value, one of two at the end if a carriage return, form feed or vertical tab follows, and one of exactly three that is not at the end |
| `ArgsReaders.LoneBackslashDiffers` | kdm/kfrontend/kdm_config.c:567-574 | A concrete line: one word for genkdmconf, two for the daemon |
| `Args.PlainStays` | kdm/kfrontend/genkdmconf.c:1336-1352 | An argument without white space, quotes and backslashes is written as it is |
| `Args.JoinIsDoubled` | kdm/kfrontend/genkdmconf.c:1312-1357 | What joinArgs writes is the stored form of a command line |
| `Args.ParseJoined` | kdm/backend/util.c:402-467 | parseArgs reads back every non-empty argument, in order |
| `ArgsLines.RoundTrip` | kdm/kfrontend/genkdmconf.c:1224-1357 | splitArgs reads back what joinArgs wrote; the list is unchanged if and only if no argument is empty. By way of a line of the file, genkdmconf, and the daemon with its decoder and parseArgs, read it back if and only if no argument has a line break |
| `ArgsBuffers.Pass` | kdm/kfrontend/genkdmconf.c:1236-1305 | Both passes over a word stop at the same place, and the second writes exactly as many characters as the first counted |
| `ArgsBuffers.SplitArgs` | kdm/backend/util.c:402-467 | The loops of splitArgs and parseArgs compute the specified list whenever all quotes are closed |
| `ArgsBuffers.MeasureArgs` | kdm/kfrontend/genkdmconf.c:1320-1333 | The computed length is that of the text plus a NUL plus one spare character |
| `ArgsBuffers.JoinArgs` | kdm/kfrontend/genkdmconf.c:1312-1357 | joinArgs writes the specified text and stays inside the measured buffer |
| `Glob.RunIs` | kdm/backend/access.c:238-270 | For every string and pattern, the matcher accepts exactly what its effective tokens say, where two stars at the end ask for a character |
| `Glob.RightExactly` | kdm/backend/access.c:238-270 | The matcher agrees with the declarative meaning on all strings if and only if the pattern does not end in two stars |
| `Glob.TwoStarsDiffer` | kdm/backend/access.c:251-256 | For each pattern that ends in two stars, a string that fits and is rejected |
| `Glob.PatternMatch` | kdm/backend/access.c:238-270 | The loop with its recursive calls computes the specified match |
| `AccessLists.FlatIsReached` | kdm/backend/access.c:275-346 | The expanded list holds exactly the entries that can be reached by following aliases |
| `AccessLists.CallsTold` | kdm/backend/access.c:275-309 | An address is among the calls if and only if the list comes down to it through aliases and it is not the one asked for; broadcast if and only if it is wanted and the list comes down to it |
| `AccessOrder.TrailsExactly` | kdm/backend/access.c:275-309 | The walk meets every way into the table through entries and aliases, and nothing else |
| `AccessOrder.CallsInOrder` | kdm/backend/access.c:275-309 | The calls come in the order of those ways: entries in the order of the list, aliases in the order of their table, depth first |
| `Access.ScanEntrylist` | kdm/backend/access.c:312-346 | True if and only if some entry that can be reached through aliases means the client |
| `Access.ScanHostlist` | kdm/backend/access.c:275-309 | Calls the function for exactly the addresses that the list comes down to, in that order, but not for this host, whose presence it reports instead |
| `Access.MatchAclEntry` | kdm/backend/access.c:351-369 | Returns the first rule of the asked kind that lists the client, and none only if there is none |
| `AccessLists.OneFirstRule` | kdm/backend/access.c:351-369 | There is only one such rule, so the decision is determined |
| `Access.AcceptableDisplayAddress` | kdm/backend/access.c:430-442 | A client is acceptable exactly if it asks indirectly or its first direct rule allows this kind of query |
| `Access.UseChooser` | kdm/backend/access.c:405-412 | True exactly if the first indirect rule allows the client and asks for a chooser |
| `Access.ForEachMatchingIndirectHost` | kdm/backend/access.c:376-402 | By the first indirect rule, an indirect query goes to the chosen host, or to exactly the hosts that the list of the rule comes down to, in order, or is answered here |
| `Access.ForEachChooserHost` | kdm/backend/access.c:414-424 | The chooser is given exactly the hosts that the list of the rule comes down to, in order, broadcast included |
| `Users.RangeIsInclusive` | kdm/kcm/main.cpp:426-448 | The superuser and the users at both ends of the range are listed with their groups, whatever the range |
| `Users.HeldExactly` | kdm/kcm/main.cpp:426-448 | A group is held exactly if a shown user is in it |
| `Users.AddGroupMoves` | kdm/kcm/main.cpp:473-483 | Counting a group up keeps the pending additions and deletions right, even if the group is deleted and added in one pass |
| `Users.DropGroupMoves` | kdm/kcm/main.cpp:461-471 | Counting a group down never meets a missing entry, and keeps them right |
| `Users.GroupsAgree` | kdm/kcm/main.cpp:450-489 | Deleting and then adding leaves exactly the held groups, none of them twice |
| `Users.ListAgrees` | kdm/kcm/main.cpp:450-489 | The list after both signals is, with multiplicities, the list for the new range |
| `Users.KDModule.PropagateUsers` | kdm/kcm/main.cpp:426-448 | Counts and list are those of the current range |
| `Users.KDModule.SlotMinMaxUID` | kdm/kcm/main.cpp:450-489 | After any change of the range the counts and the list equal what computing them from scratch would give; before the first computation only the range changes |
| `Choices.DisposeIsExpiry` | kdm/backend/choose.c:73-90 | Stopping at the first live entry removes exactly the expired ones and returns the least time of the rest |
| `Choices.RegisterIsUpdate` | kdm/backend/choose.c:142-190 | Registering updates one client, keeps its earlier choice if no other is given, and keeps the list in order |
| `Choices.CheckIsRemoval` | kdm/backend/choose.c:111-140 | Checking removes one client and says whether it was waiting for a choice |
| `Choices.StepRefines` | kdm/backend/choose.c:73-190 | Each operation is the same operation on a map from clients to choices |
| `Choices.RunRefines` | kdm/backend/choose.c:73-190 | Over every run with a clock that does not go back, the list answers as the map does |
| `Choices.FromNothing` | kdm/backend/choose.c:71-190 | In particular from the empty list |
| `Choices.IndirectHosts.DisposeIndirectHosts` | kdm/backend/choose.c:73-90 | In place: the loop drops the specified front of the list |
| `Choices.IndirectHosts.CheckIndirectChoice` | kdm/backend/choose.c:111-140 | In place: exactly the client's entry is unlinked |
| `Choices.IndirectHosts.RegisterIndirectChoice` | kdm/backend/choose.c:142-190 | In place: the entry is unlinked, or made, and appended |
| `Choices.IndirectHosts.IndirectChoice` | kdm/backend/choose.c:92-109 | The choice on record, if any |
| `Entropy.CrcBitInjective` | kdm/backend/genauth.c:205-207 | One CRC step loses nothing |
| `Entropy.TwistedIsThreeBits` | kdm/backend/genauth.c:205-225 | The table step is three bit-serial CRC-32 steps, for every word |
| `Entropy.AddWordInjective` | kdm/backend/genauth.c:209-226 | For a known word, stirring it in can be undone |
| `Entropy.AddWordsInjective` | kdm/backend/genauth.c:200-227 | For any fixed input, different pools stay different |
| `Entropy.InputTells` | kdm/backend/genauth.c:200-227 | From a known pool, any two different inputs of up to 32 words each, of the same length or not, leave different pools |
| `Entropy.EntropyPool.AddEntropy` | kdm/backend/genauth.c:200-227 | In place: the loop computes the specified pool |
| `Entropy.FeedAtOnce` | kdm/backend/sessreg.c:87-100 | Feeding bits one by one and adding a byte at once differ only by bits not yet used |
| `Entropy.ByteAtOnce` | kdm/backend/sessreg.c:87-100 | The byte-wise update is eight steps of the bit-serial register |
| `Entropy.Crc32s` | kdm/backend/sessreg.c:87-100 | On every string the result is the register of section 8 of RFC 1952, started with ones and not inverted at the end |

## Left out

- Text mode and virtual terminals (`stopToTTY`, `allocateVT`, `checkUtmp`, the `textMode` status): they can leave a server start waiting on a display that is not running.
- Reading the configuration again (HUP): it can change the lifetime of a live display and turn a waiting display into a reserve one.
- LifecycleInv.RunInv: for runs without a `D_XConnOk` report during a launch; `InvRunExactly` shows that this is the exact condition.
- Liveness of the launch queue across displays: the slot can stay taken while its display waits for a server to end, so only safety and the end of each single launch are proved.
- `fork`, `exec`, signals, sockets, pipes and X11: their outcomes are parameters of the events.
- Session bookkeeping without effect on a display's status: `hstent` records, login and auto-login data, log output, the pid file.
- How a scheduled system shutdown is computed (only whether it is due is an input), and the reporting commands of `ctrl.c`.
- The command parser of `ctrl.c` and `handleChan`: commands arrive parsed; a login for a remote session only sends a signal.
- LifecycleIdle.NoneIdleExactly: for runs without a `D_XConnOk` report during a launch, as `RunInv`.
- LifecycleStarts.TimedFromItsFork: for such runs.
- LifecycleRetries.LocalGivenUpExactly: for such runs, since servers are launched through the slot; `ForeignGivenUpExactly` is for all.
- DaemonLoop.MainLoop: for such runs; after such a report the null dereference above is possible.
- DaemonLoop.Serve: for such runs, too.
- DisplayManager.Manager.CancelShutdown: without the rescan of the configuration that follows (see HUP above).
- DisplayManager.Manager.UserSession: without the shutdown request that D_UnUser may hand over; that one is scheduled is an input (`ShutdownDue`).
- Xdmcp.PendingExactly: for a clock as `updateNow` sets it from the monotonic clock; the fallback to `time` gives less than 10000 only in the first hours of 1970.
- The permission check of the "reserve" command (the asking display must be local).
- XDMCP queries, forwarding and willing answers, XDM-AUTHORIZATION keys and cookies: whether authorization and authentication succeed are inputs of a REQUEST.
- Name lookup (`networkAddressToName`, `networkAddressToHostname`): the name is an input.
- XdmcpManager.Manager.Manage: leaves out `checkIndirectChoice` and `useChooser`, which decide only whether the new display shows a chooser, and the authorization data handed over from the pending session.
- Xdmcp.AnyTraffic: for fewer than 2^32 issued ids; after that ids repeat.
- Running out of memory, in all modules.
- `iniLoad` and `iniSave`: file access.
- ConfigLine: the two `readConfig` from the equals sign to the end of a line, in files without NUL; sections, keys, comments and their error messages are left out.
- IniFile.Read: for buffers that end in a newline, as the code asks of its callers.
- ArgsBuffers.SplitArgs: for text whose quotes are closed; otherwise the C code reads behind the text (`Split` is then None).
- ArgsBuffers.Pass: the sources write this loop twice, with and without the buffer; here one method runs twice.
- IsSpace and Lower are those of the C locale.
- Glob.PatternMatch: for patterns without a lone backslash at the end; otherwise the C code reads behind the pattern.
- Access: alias tables must be acyclic, because the recursion of the code has no limit (`MAX_DEPTH` is not used); `scanAccessDatabase` and `getLocalAddress` are inputs.
- Users: user names that start with '@', which the program would confuse with groups; the values of the maps in the signals (user ids, negated for groups), which the receivers do not read; how `usermap` is filled from the system's databases.
- Choices: the chooser itself, which asks hosts and lists them.
- Entropy.Rotated: rotating by 0 is the identity; in C the shift by the full width that the code writes is undefined.
- `fileAuthorization`, `genauth.c` beyond the pool, and `sessreg.c` beyond the checksum.
- The KCM widgets, the greeter, themes, the clock and the rest of `genkdmconf.c`: user interface and file copying.

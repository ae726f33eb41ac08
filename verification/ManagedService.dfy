/**
 All hosts that ever run on one state root, together with the lock, token and state files they
 share.  A step is one step of one thread of one host, or the death of a process.
 */
module ManagedService {
  import opened Options
  import L = InstanceLock
  import opened ManagedHost

  datatype World = World(files: Files, hosts: map<Instance, Host>, dead: set<L.Process>)

  datatype Event = Act(who: Instance, action: Action) | Crash(process: L.Process)

  /** No host has started; token and state may be left over from anywhere. */
  ghost predicate Init(w: World) {
    w.files.lock.Absent? && w.dead == {} && forall i :: i in w.hosts ==> NewHost(w.hosts[i])
  }

  ghost predicate Next(c: L.Config, w: World, e: Event, w': World) {
    match e
    case Crash(p) => w' == w.(dead := w.dead + {p})
    case Act(i, a) =>
      && i in w.hosts
      && L.Live(c, w.dead, i)
      && Enabled(c, w.hosts.Keys, w.dead, w.files, i, w.hosts[i], a)
      && w' == w.(
           files := FilesAfter(w.files, i, w.hosts[i], a),
           hosts := w.hosts[i := HostAfter(w.files, i, w.hosts[i], a)])
  }

  ghost predicate IsRun(c: L.Config, worlds: seq<World>, events: seq<Event>) {
    && |worlds| == |events| + 1
    && Init(worlds[0])
    && forall k :: 0 <= k < |events| ==> Next(c, worlds[k], events[k], worlds[k + 1])
  }

  // ----- the lock protocol inside the world

  ghost function Locks(w: World): L.State {
    L.State(w.files.lock, map i | i in w.hosts :: w.hosts[i].lock, w.dead)
  }

  ghost predicate IsLockEvent(e: Event) {
    e.Crash? || e.action.LockStep?
  }

  ghost function LockEvent(e: Event): L.Event
    requires IsLockEvent(e)
  {
    if e.Crash? then L.Crash(e.process) else L.Act(e.who, e.action.lock)
  }

  /** The event is not a recovery that unlinks the lock of a live claimant. */
  ghost predicate Clean(c: L.Config, w: World, e: Event) {
    IsLockEvent(e) ==> !L.RemovesLiveClaim(c, Locks(w), LockEvent(e))
  }

  ghost predicate CleanRun(c: L.Config, worlds: seq<World>, events: seq<Event>) {
    IsRun(c, worlds, events) && forall k :: 0 <= k < |events| ==> Clean(c, worlds[k], events[k])
  }

  /** A step of the world is a step of the lock protocol or leaves the protocol's state alone. */
  lemma WorldRefinesLock(c: L.Config, w: World, e: Event, w': World)
    requires Next(c, w, e, w')
    ensures IsLockEvent(e) ==> L.Next(c, Locks(w), LockEvent(e), Locks(w'))
    ensures !IsLockEvent(e) ==> Locks(w') == Locks(w)
  {
    if e.Act? {
      assert Locks(w').pcs.Keys == w.hosts.Keys == Locks(w).pcs.Keys;
      if e.action.LockStep? {
        assert Locks(w').pcs == Locks(w).pcs[e.who := w'.hosts[e.who].lock];
      } else {
        OtherStepsKeepLock(c, w, e.who, e.action);
        assert Locks(w').pcs == Locks(w).pcs;
      }
    } else {
      assert Locks(w').pcs == Locks(w).pcs;
    }
  }

  lemma OtherStepsKeepLock(c: L.Config, w: World, i: Instance, a: Action)
    requires i in w.hosts && Enabled(c, w.hosts.Keys, w.dead, w.files, i, w.hosts[i], a) && !a.LockStep?
    ensures HostAfter(w.files, i, w.hosts[i], a).lock == w.hosts[i].lock
    ensures FilesAfter(w.files, i, w.hosts[i], a).lock == w.files.lock
  {
  }

  // ----- the invariant of the world

  /** The host has created its transport token and not yet deleted it. */
  predicate TokenOut(h: Host) {
    || h.start.Binding? || h.start.Publishing? || h.start.Spawning?
    || (h.start.Started? && !Stage(h.winner, h.calls).ReleasingLock? && !Stage(h.winner, h.calls).Returned?)
  }

  /** The host has removed whatever token there was, and still has the lock. */
  predicate TokenGone(h: Host) {
    && L.Claims(h.lock)
    && (h.start.CreatingToken? || h.start.CleaningLock? || Stage(h.winner, h.calls).ReleasingLock?)
  }

  /** The host has published and still has the lock. */
  predicate StateOut(h: Host) {
    h.history != [] && L.Claims(h.lock)
  }

  ghost predicate HostFiles(f: Files, i: Instance, h: Host) {
    && (TokenOut(h) ==> f.token == Some(i))
    && (TokenGone(h) ==> f.token == None)
    && (StateOut(h) ==> f.state == Some(Published(i, h.history[|h.history| - 1])))
  }

  ghost predicate HostsInv(w: World) {
    forall i :: i in w.hosts ==> Inv(w.hosts[i])
  }

  ghost predicate FilesInv(c: L.Config, w: World) {
    forall i :: i in w.hosts && L.Live(c, w.dead, i) ==> HostFiles(w.files, i, w.hosts[i])
  }

  ghost predicate WorldInv(c: L.Config, w: World) {
    HostsInv(w) && L.FileNamesClaimant(c, Locks(w)) && FilesInv(c, w)
  }

  ghost predicate LiveClaim(c: L.Config, w: World, i: Instance) {
    i in w.hosts && L.Live(c, w.dead, i) && L.Claims(w.hosts[i].lock)
  }

  lemma NewHostInv(h: Host)
    requires NewHost(h)
    ensures Inv(h) && !TokenOut(h) && !TokenGone(h) && !StateOut(h)
  {
  }

  lemma StepKeepsHosts(c: L.Config, w: World, e: Event, w': World)
    requires Next(c, w, e, w') && HostsInv(w)
    ensures HostsInv(w')
  {
    if e.Act? {
      StepKeepsInv(c, w.hosts.Keys, w.dead, w.files, e.who, w.hosts[e.who], e.action);
    }
  }

  /** The step writes or deletes the token or the state file, whether or not that changes its content. */
  predicate Touches(a: Action) {
    match a
    case StartStep(s) =>
      s.TokenCleared? || s.TokenCreated? || s.StatePublished? || s.TokenCleaned? || (s.StartFails? && s.partial)
    case StopStep(_, s) => s.WriteFinal? || s.DeleteToken?
    case HeartbeatStep(b) => b.WriteBeat?
    case _ => false
  }

  /** No other step changes these files. */
  lemma OthersTouchNothing(f: Files, i: Instance, h: Host, a: Action)
    requires !Touches(a)
    ensures FilesAfter(f, i, h, a).token == f.token && FilesAfter(f, i, h, a).state == f.state
  {
  }

  /** A host whose step touches token or state has the lock. */
  lemma WritersHold(c: L.Config, instances: set<Instance>, dead: set<L.Process>, f: Files, i: Instance, h: Host,
                    a: Action)
    requires Inv(h) && Enabled(c, instances, dead, f, i, h, a) && Touches(a)
    ensures h.lock.Held?
  {
    match a
    case StartStep(s) =>
    case StopStep(id, s) => assert h.winner == Some(id);
    case HeartbeatStep(b) =>
      assert h.heartbeat.Writing?;
      assert !HeartbeatGone(Stage(h.winner, h.calls));
    case _ =>
  }

  /** The three file promises mean that the host has the lock. */
  lemma PromisesNeedClaim(h: Host)
    requires Inv(h)
    ensures TokenOut(h) || TokenGone(h) || StateOut(h) ==> L.Claims(h.lock)
  {
  }

  /** A host's own step keeps its promises about the files. */
  lemma OwnLockStepKeepsFiles(c: L.Config, instances: set<Instance>, dead: set<L.Process>, f: Files, i: Instance,
                              h: Host, l: L.Action)
    requires Inv(h) && Enabled(c, instances, dead, f, i, h, LockStep(l)) && HostFiles(f, i, h)
    ensures HostFiles(FilesAfter(f, i, h, LockStep(l)), i, HostAfter(f, i, h, LockStep(l)))
  {
  }

  lemma OwnStartStepKeepsToken(f: Files, i: Instance, h: Host, s: StartAction)
    requires Inv(h) && StartEnabled(f, h, s) && HostFiles(f, i, h)
    ensures TokenOut(StartHost(h, s)) ==> StartFiles(f, i, h, s).token == Some(i)
    ensures TokenGone(StartHost(h, s)) ==> StartFiles(f, i, h, s).token == None
  {
    assert !h.start.Started? && h.winner.None?;
  }

  lemma OwnStartStepKeepsState(f: Files, i: Instance, h: Host, s: StartAction)
    requires Inv(h) && StartEnabled(f, h, s) && HostFiles(f, i, h)
    ensures
      var h' := StartHost(h, s);
      StateOut(h') ==> StartFiles(f, i, h, s).state == Some(Published(i, h'.history[|h'.history| - 1]))
  {
    assert !h.start.Started? && h.winner.None?;
  }

  lemma OwnStartStepKeepsFiles(f: Files, i: Instance, h: Host, s: StartAction)
    requires Inv(h) && StartEnabled(f, h, s) && HostFiles(f, i, h)
    ensures HostFiles(StartFiles(f, i, h, s), i, StartHost(h, s))
  {
    OwnStartStepKeepsToken(f, i, h, s);
    OwnStartStepKeepsState(f, i, h, s);
  }

  lemma OwnStopStepKeepsToken(f: Files, i: Instance, h: Host, id: nat, s: StopAction)
    requires Inv(h) && StopEnabled(h, id, s) && HostFiles(f, i, h)
    ensures TokenOut(StopHost(h, id, s)) ==> StopFiles(f, i, h, id, s).token == Some(i)
    ensures TokenGone(StopHost(h, id, s)) ==> StopFiles(f, i, h, id, s).token == None
  {
    assert !s.Enter? && !s.Check? ==> h.winner == Some(id);
  }

  lemma OwnStopStepKeepsState(f: Files, i: Instance, h: Host, id: nat, s: StopAction)
    requires Inv(h) && StopEnabled(h, id, s) && HostFiles(f, i, h)
    ensures
      var h' := StopHost(h, id, s);
      StateOut(h') ==> StopFiles(f, i, h, id, s).state == Some(Published(i, h'.history[|h'.history| - 1]))
  {
    assert !s.Enter? && !s.Check? ==> h.winner == Some(id);
  }

  lemma OwnStopStepKeepsFiles(f: Files, i: Instance, h: Host, id: nat, s: StopAction)
    requires Inv(h) && StopEnabled(h, id, s) && HostFiles(f, i, h)
    ensures HostFiles(StopFiles(f, i, h, id, s), i, StopHost(h, id, s))
  {
    OwnStopStepKeepsToken(f, i, h, id, s);
    OwnStopStepKeepsState(f, i, h, id, s);
  }

  lemma OwnHeartbeatStepKeepsFiles(f: Files, i: Instance, h: Host, b: HeartbeatAction)
    requires Inv(h) && HeartbeatEnabled(h, b) && HostFiles(f, i, h)
    ensures HostFiles(HeartbeatFiles(f, i, h, b), i, HeartbeatHost(h, b))
  {
    assert h.heartbeat.Writing? ==> !FinalWritten(h);
  }

  lemma OwnServerStepKeepsFiles(c: L.Config, instances: set<Instance>, dead: set<L.Process>, f: Files, i: Instance,
                                h: Host, s: ServerAction)
    requires Inv(h) && Enabled(c, instances, dead, f, i, h, ServerStep(s)) && HostFiles(f, i, h)
    ensures HostFiles(FilesAfter(f, i, h, ServerStep(s)), i, HostAfter(f, i, h, ServerStep(s)))
  {
  }

  lemma ClientStepKeepsFiles(c: L.Config, instances: set<Instance>, dead: set<L.Process>, f: Files, i: Instance,
                             h: Host, s: ClientAction)
    requires Inv(h) && Enabled(c, instances, dead, f, i, h, ClientStep(s)) && HostFiles(f, i, h)
    ensures HostFiles(FilesAfter(f, i, h, ClientStep(s)), i, HostAfter(f, i, h, ClientStep(s)))
  {
  }

  lemma NewCallKeepsFiles(c: L.Config, instances: set<Instance>, dead: set<L.Process>, f: Files, i: Instance, h: Host,
                          a: Action, id: nat)
    requires Inv(h) && Enabled(c, instances, dead, f, i, h, a) && HostFiles(f, i, h)
    requires (a.Call? && a.id == id) || (a.Ask? && a.id == id)
    ensures HostFiles(FilesAfter(f, i, h, a), i, HostAfter(f, i, h, a))
  {
    var reason := if a.Call? then a.reason else CLIENT_REQUEST;
    assert Stage(h.winner, h.calls[id := StopCall(Wanting, reason)]) == Stage(h.winner, h.calls);
  }

  lemma OwnStepKeepsFiles(c: L.Config, instances: set<Instance>, dead: set<L.Process>, f: Files, i: Instance, h: Host,
                          a: Action)
    requires Inv(h) && Enabled(c, instances, dead, f, i, h, a) && HostFiles(f, i, h)
    ensures HostFiles(FilesAfter(f, i, h, a), i, HostAfter(f, i, h, a))
  {
    match a
    case LockStep(l) => OwnLockStepKeepsFiles(c, instances, dead, f, i, h, l);
    case StartStep(s) => OwnStartStepKeepsFiles(f, i, h, s);
    case StopStep(id, s) => OwnStopStepKeepsFiles(f, i, h, id, s);
    case ServerStep(s) => OwnServerStepKeepsFiles(c, instances, dead, f, i, h, s);
    case ClientStep(s) => ClientStepKeepsFiles(c, instances, dead, f, i, h, s);
    case HeartbeatStep(b) => OwnHeartbeatStepKeepsFiles(f, i, h, b);
    case Call(id, _) => NewCallKeepsFiles(c, instances, dead, f, i, h, a, id);
    case Ask(id) => NewCallKeepsFiles(c, instances, dead, f, i, h, a, id);
  }

  /** Two live claimants are the same instance. */
  lemma OneClaimant(c: L.Config, w: World, i: Instance, j: Instance)
    requires L.FileNamesClaimant(c, Locks(w)) && LiveClaim(c, w, i) && LiveClaim(c, w, j)
    ensures i == j && w.files.lock.Present? && w.files.lock.creator == i
  {
    assert L.LiveClaim(c, Locks(w), i) && L.LiveClaim(c, Locks(w), j);
  }

  lemma StepKeepsFiles(c: L.Config, w: World, e: Event, w': World)
    requires Next(c, w, e, w') && WorldInv(c, w)
    ensures FilesInv(c, w')
  {
    forall j | j in w'.hosts && L.Live(c, w'.dead, j) ensures HostFiles(w'.files, j, w'.hosts[j]) {
      assert HostFiles(w.files, j, w.hosts[j]);
      if e.Act? && e.who == j {
        OwnStepKeepsFiles(c, w.hosts.Keys, w.dead, w.files, j, w.hosts[j], e.action);
      } else if e.Act? && !Touches(e.action) {
        OthersTouchNothing(w.files, e.who, w.hosts[e.who], e.action);
      } else if e.Act? {
        WritersHold(c, w.hosts.Keys, w.dead, w.files, e.who, w.hosts[e.who], e.action);
        PromisesNeedClaim(w.hosts[j]);
        if L.Claims(w.hosts[j].lock) {
          OneClaimant(c, w, e.who, j);
        }
      }
    }
  }

  lemma StepKeepsWorld(c: L.Config, w: World, e: Event, w': World)
    requires Next(c, w, e, w') && WorldInv(c, w) && Clean(c, w, e)
    ensures WorldInv(c, w')
  {
    StepKeepsHosts(c, w, e, w');
    StepKeepsFiles(c, w, e, w');
    WorldRefinesLock(c, w, e, w');
    if IsLockEvent(e) {
      L.StepKeepsFileNamesClaimant(c, Locks(w), LockEvent(e), Locks(w'));
    }
  }

  lemma {:induction false} HostsAlongRun(c: L.Config, worlds: seq<World>, events: seq<Event>, k: nat)
    requires IsRun(c, worlds, events) && k < |worlds|
    ensures HostsInv(worlds[k])
  {
    if k == 0 {
      forall i | i in worlds[0].hosts ensures Inv(worlds[0].hosts[i]) { NewHostInv(worlds[0].hosts[i]); }
    } else {
      HostsAlongRun(c, worlds, events, k - 1);
      StepKeepsHosts(c, worlds[k - 1], events[k - 1], worlds[k]);
    }
  }

  lemma {:induction false} WorldAlongRun(c: L.Config, worlds: seq<World>, events: seq<Event>, k: nat)
    requires CleanRun(c, worlds, events) && k < |worlds|
    ensures WorldInv(c, worlds[k])
  {
    if k == 0 {
      forall i | i in worlds[0].hosts
        ensures Inv(worlds[0].hosts[i]) && HostFiles(worlds[0].files, i, worlds[0].hosts[i])
      {
        NewHostInv(worlds[0].hosts[i]);
      }
    } else {
      WorldAlongRun(c, worlds, events, k - 1);
      StepKeepsWorld(c, worlds[k - 1], events[k - 1], worlds[k]);
    }
  }

  // ----- main results

  /** Whatever changes the content of token or state file is one of these writes and deletes. */
  lemma ChangesAreTouches(c: L.Config, w: World, e: Event, w': World)
    requires Next(c, w, e, w') && (w'.files.token != w.files.token || w'.files.state != w.files.state)
    ensures e.Act? && Touches(e.action)
  {
    if e.Act? && !Touches(e.action) { OthersTouchNothing(w.files, e.who, w.hosts[e.who], e.action); }
  }

  /** No lock step of the world takes the lock file away while another live instance is inside its recovery window. */
  ghost predicate SerialRun(c: L.Config, worlds: seq<World>, events: seq<Event>) {
    && IsRun(c, worlds, events)
    && forall k :: 0 <= k < |events| && IsLockEvent(events[k]) ==>
         L.SerialRemoval(c, Locks(worlds[k]), LockEvent(events[k]))
  }

  lemma {:induction false} WindowsAlongRun(c: L.Config, worlds: seq<World>, events: seq<Event>, k: nat)
    requires L.PositivePids(c) && SerialRun(c, worlds, events) && k < |worlds|
    ensures L.WindowSeesFile(c, Locks(worlds[k]))
  {
    if k > 0 {
      var w, e, w' := worlds[k - 1], events[k - 1], worlds[k];
      WindowsAlongRun(c, worlds, events, k - 1);
      assert Next(c, w, e, w');
      WorldRefinesLock(c, w, e, w');
      if IsLockEvent(e) { L.StepKeepsWindow(c, Locks(w), LockEvent(e), Locks(w')); }
    } else {
      assert forall i :: i in worlds[0].hosts ==> NewHost(worlds[0].hosts[i]);
    }
  }

  /** The scheduling rule of the lock, for whole hosts: a run that removes serially is clean, so all results below hold
      of it. */
  lemma SerialRunIsClean(c: L.Config, worlds: seq<World>, events: seq<Event>)
    requires L.PositivePids(c) && SerialRun(c, worlds, events)
    ensures CleanRun(c, worlds, events)
  {
    forall k | 0 <= k < |events| ensures Clean(c, worlds[k], events[k]) {
      WindowsAlongRun(c, worlds, events, k);
      assert Next(c, worlds[k], events[k], worlds[k + 1]);
      WorldRefinesLock(c, worlds[k], events[k], worlds[k + 1]);
      if IsLockEvent(events[k]) {
        L.StepKeepsWindow(c, Locks(worlds[k]), LockEvent(events[k]), Locks(worlds[k + 1]));
      }
    }
  }

  /**
   Every write or delete of the token or of the state file, in any clean run of any number of
   hosts, is made by the one live instance that holds the lock and that the lock file names.
   */
  lemma OnlyHolderTouchesFiles(c: L.Config, worlds: seq<World>, events: seq<Event>, k: nat)
    requires CleanRun(c, worlds, events) && k < |events| && events[k].Act? && Touches(events[k].action)
    ensures events[k].who in worlds[k].hosts && worlds[k].hosts[events[k].who].lock.Held?
    ensures worlds[k].files.lock == L.Present(events[k].who, true)
    ensures forall j :: LiveClaim(c, worlds[k], j) ==> j == events[k].who
  {
    var w, i := worlds[k], events[k].who;
    WorldAlongRun(c, worlds, events, k);
    assert Next(c, w, events[k], worlds[k + 1]);
    WritersHold(c, w.hosts.Keys, w.dead, w.files, i, w.hosts[i], events[k].action);
    assert L.LiveClaim(c, Locks(w), i);
    forall j | LiveClaim(c, w, j) ensures j == i { OneClaimant(c, w, i, j); }
  }

  lemma {:induction false} PublicationAlongRun(c: L.Config, worlds: seq<World>, events: seq<Event>, k: nat)
    requires IsRun(c, worlds, events) && k < |worlds|
    ensures forall i :: i in worlds[k].hosts ==> PublicationInv(worlds[k].hosts[i])
  {
    if k > 0 {
      var w, e := worlds[k - 1], events[k - 1];
      PublicationAlongRun(c, worlds, events, k - 1);
      HostsAlongRun(c, worlds, events, k - 1);
      assert Next(c, w, e, worlds[k]);
      if e.Act? {
        StepKeepsPublication(c, w.hosts.Keys, w.dead, w.files, e.who, w.hosts[e.who], e.action);
      }
    } else {
      assert forall i :: i in worlds[0].hosts ==> NewHost(worlds[0].hosts[i]);
    }
  }

  /**
   While a host is up, the token file is its own and the state file shows the last value it wrote,
   whatever its predecessors and contenders do; once it has published while it runs, that file says
   Running; and when it stops, the token it deletes is its own.
   */
  lemma PublishedFilesAreOwn(c: L.Config, worlds: seq<World>, events: seq<Event>, k: nat, i: Instance)
    requires CleanRun(c, worlds, events) && k < |worlds|
    requires i in worlds[k].hosts && L.Live(c, worlds[k].dead, i)
    ensures
      var w, h := worlds[k], worlds[k].hosts[i];
      && (h.running ==> w.files.token == Some(i))
      && (h.history != [] && L.Claims(h.lock) ==> w.files.state == Some(Published(i, h.history[|h.history| - 1])))
      && (h.running && h.history != [] ==> w.files.state == Some(Published(i, Running)))
      && (k < |events| && events[k].Act? && events[k].who == i && events[k].action.StopStep? &&
          events[k].action.stop.DeleteToken?
          ==> w.files.token == Some(i))
  {
    var h := worlds[k].hosts[i];
    WorldAlongRun(c, worlds, events, k);
    assert HostFiles(worlds[k].files, i, h);
    RunningHasToken(worlds[k].files, i, h);
    PublicationAlongRun(c, worlds, events, k);
    RunningSaysSo(worlds[k].files, i, h);
    if k < |events| && events[k].Act? && events[k].who == i && events[k].action.StopStep? &&
       events[k].action.stop.DeleteToken? {
      assert Next(c, worlds[k], events[k], worlds[k + 1]);
      DeleterHasToken(worlds[k].files, i, h, events[k].action.id, events[k].action.stop);
    }
  }

  lemma RunningSaysSo(f: Files, i: Instance, h: Host)
    requires Inv(h) && HostFiles(f, i, h) && PublicationInv(h)
    ensures h.running && h.history != [] ==> f.state == Some(Published(i, Running))
  {
    assert h.running ==> L.Claims(h.lock);
  }

  lemma RunningHasToken(f: Files, i: Instance, h: Host)
    requires Inv(h) && HostFiles(f, i, h)
    ensures h.running ==> f.token == Some(i)
  {
  }

  lemma DeleterHasToken(f: Files, i: Instance, h: Host, id: nat, s: StopAction)
    requires Inv(h) && HostFiles(f, i, h) && StopEnabled(h, id, s) && s.DeleteToken?
    ensures f.token == Some(i)
  {
    assert h.winner == Some(id);
  }

  /** The token is gone before the lock is freed. */
  lemma TokenGoneBeforeLockFreed(c: L.Config, worlds: seq<World>, events: seq<Event>, k: nat)
    requires CleanRun(c, worlds, events) && k < |events|
    requires events[k].Act? && events[k].action == LockStep(L.UnlinkOwn)
    ensures worlds[k].files.token == None
    ensures worlds[k].files.lock == L.Present(events[k].who, true) && worlds[k + 1].files.lock == L.Absent
  {
    var w, i := worlds[k], events[k].who;
    WorldAlongRun(c, worlds, events, k);
    assert Next(c, w, events[k], worlds[k + 1]);
    assert L.LiveClaim(c, Locks(w), i);
    assert HostFiles(w.files, i, w.hosts[i]) && TokenGone(w.hosts[i]);
  }
}

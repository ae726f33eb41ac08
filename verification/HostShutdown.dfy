/**
 Controlled shutdown of a host under every interleaving of its threads: the body of `stop` runs
 once, its final state stays the last one, and no thread waits in a cycle.
 */
module HostShutdown {
  import opened Options
  import L = InstanceLock
  import opened ManagedHost
  import S = ManagedService

  // ----- once, and for good

  lemma StopStepAfterFinal(h: Host, id: nat, s: StopAction)
    requires Inv(h) && StopEnabled(h, id, s) && FinalWritten(h)
    ensures
      var h' := StopHost(h, id, s);
      FinalWritten(h') && h'.history == h.history && h'.winner == h.winner &&
      h'.calls[h'.winner.value].reason == h.calls[h.winner.value].reason
    ensures !s.WriteFinal?
  {
    assert s.Enter? || s.Check? || h.winner == Some(id);
  }

  /** After the final state is written no step of the host writes the state file or changes the winner. */
  lemma FinalStateStays(c: L.Config, instances: set<Instance>, dead: set<L.Process>, f: Files, i: Instance, h: Host,
                        a: Action)
    requires Inv(h) && Enabled(c, instances, dead, f, i, h, a) && FinalWritten(h)
    ensures
      var h' := HostAfter(f, i, h, a);
      && FinalWritten(h')
      && h'.history == h.history
      && h'.winner == h.winner
      && h'.calls[h'.winner.value].reason == h.calls[h.winner.value].reason
      && FilesAfter(f, i, h, a).state == f.state
  {
    match a
    case LockStep(_) =>
    case StartStep(_) =>
    case StopStep(id, s) => StopStepAfterFinal(h, id, s);
    case ServerStep(_) =>
    case ClientStep(_) =>
    case HeartbeatStep(_) =>
    case Call(_, _) =>
    case Ask(_) =>
  }

  /**
   In every state of every run: the shutdown body was entered at most once; once its final state
   is written, that state is the last one the host wrote and carries the winning caller's reason;
   when the body has returned, both service threads are gone and the lock is released.
   */
  lemma ShutdownBodyRunsOnce(c: L.Config, worlds: seq<S.World>, events: seq<S.Event>, k: nat, i: Instance)
    requires S.IsRun(c, worlds, events) && k < |worlds| && i in worlds[k].hosts
    ensures
      var h := worlds[k].hosts[i];
      var stage := Stage(h.winner, h.calls);
      && h.bodies <= 1
      && (FinalWritten(h) ==>
            && h.history != []
            && h.history[|h.history| - 1] == StoppedFor(h.calls[h.winner.value].reason))
      && (stage.Returned? ==> h.server.ServerExited? && h.heartbeat.HeartbeatExited? && h.lock.Released? && !h.running)
  {
    S.HostsAlongRun(c, worlds, events, k);
    assert Inv(worlds[k].hosts[i]);
  }

  /** Whatever happens later, the history, the winner and its reason stay as they were at the final write. */
  lemma {:induction false} NothingWrittenAfterFinal(c: L.Config, worlds: seq<S.World>, events: seq<S.Event>, k: nat,
                                                    m: nat, i: Instance)
    requires S.IsRun(c, worlds, events) && k <= m < |worlds|
    requires i in worlds[k].hosts && FinalWritten(worlds[k].hosts[i])
    ensures i in worlds[m].hosts
    ensures
      var h, h' := worlds[k].hosts[i], worlds[m].hosts[i];
      FinalWritten(h') && h'.history == h.history && h'.winner == h.winner &&
      h'.calls[h'.winner.value].reason == h.calls[h.winner.value].reason
    decreases m
  {
    if m > k {
      NothingWrittenAfterFinal(c, worlds, events, k, m - 1, i);
      S.HostsAlongRun(c, worlds, events, m - 1);
      var w, e := worlds[m - 1], events[m - 1];
      assert S.Next(c, w, e, worlds[m]);
      if e.Act? && e.who == i {
        FinalStateStays(c, w.hosts.Keys, w.dead, w.files, i, w.hosts[i], e.action);
      }
    }
  }

  /**
   What a host publishes over its life, in every state of every run: Running until the shutdown body is
   entered, then at most one more value of the heartbeat, then the final value.  And the main thread is
   woken: whenever the heartbeat has ended or the body has set its first event, a shutdown is requested.
   */
  lemma PublishedValues(c: L.Config, worlds: seq<S.World>, events: seq<S.Event>, k: nat, i: Instance)
    requires S.IsRun(c, worlds, events) && k < |worlds| && i in worlds[k].hosts
    ensures
      var h := worlds[k].hosts[i];
      && (forall n :: 0 <= n < |h.history| && (h.winner.None? || n < h.before) ==> h.history[n] == Running)
      && (h.winner.Some? ==> h.before <= |h.history| <= h.before + 2)
      && (forall n :: 0 <= n < |h.history| && h.history[n].StoppedFor? ==> n == |h.history| - 1)
      && (h.heartbeat.HeartbeatExited? ==> h.requested)
  {
    S.PublicationAlongRun(c, worlds, events, k);
    assert PublicationInv(worlds[k].hosts[i]);
  }

  // ----- waiting

  /** Thread `t` cannot go on before thread `u` does something. */
  predicate WaitsFor(h: Host, t: Thread, u: Thread) {
    match t
    case Starter => h.start.NotStarted? && h.lifecycle == Some(u)
    case Caller(id) =>
      id in h.calls &&
      (|| (h.calls[id].pc.Wanting? && h.lifecycle == Some(u))
       || (h.calls[id].pc.AwaitingServer? && u.Server? && !h.server.ServerExited?)
       || (h.calls[id].pc.AwaitingHeartbeat? && u.Heartbeat? && !h.heartbeat.HeartbeatExited?))
    case Server => h.server.ServerWaits? && h.authority == Some(u)
    case Heartbeat => h.heartbeat.HeartbeatWaits? && h.authority == Some(u)
  }

  ghost predicate Waits(h: Host, t: Thread) {
    exists u :: WaitsFor(h, t, u)
  }

  /** Waiting is being blocked: apart from the releasing of the lock and from what the client ends, a thread of a host
      that is not at its end has no step exactly when it waits for another thread. */
  lemma BlockedIffWaits(f: Files, h: Host)
    ensures h.start.NotStarted? ==> (Waits(h, Starter) <==> forall s :: !StartEnabled(f, h, s))
    ensures forall id :: Pending(h, id) && !h.calls[id].pc.ReleasingLock? ==>
              (Waits(h, Caller(id)) <==> forall s :: !StopEnabled(h, id, s))
    ensures !h.server.ServerAbsent? && !h.server.ServerExited? && !AtClient(h.server) ==>
              (Waits(h, Server) <==> forall s :: !ServerEnabled(h, s))
    ensures !h.heartbeat.HeartbeatAbsent? && !h.heartbeat.HeartbeatExited? ==>
              (Waits(h, Heartbeat) <==> forall s :: !HeartbeatEnabled(h, s))
  {
    if h.start.NotStarted? { StarterBlocked(f, h); }
    forall id | Pending(h, id) && !h.calls[id].pc.ReleasingLock?
      ensures Waits(h, Caller(id)) <==> forall s :: !StopEnabled(h, id, s)
    {
      CallerBlocked(h, id);
    }
    if !h.server.ServerAbsent? && !h.server.ServerExited? && !AtClient(h.server) { ServerBlocked(h); }
    if !h.heartbeat.HeartbeatAbsent? && !h.heartbeat.HeartbeatExited? { HeartbeatBlocked(h); }
  }

  lemma StarterBlocked(f: Files, h: Host)
    requires h.start.NotStarted?
    ensures Waits(h, Starter) <==> forall s :: !StartEnabled(f, h, s)
  {
    assert StartEnabled(f, h, BeginStart) <==> h.lifecycle.None?;
    if h.lifecycle.Some? { assert WaitsFor(h, Starter, h.lifecycle.value); }
  }

  lemma CallerBlocked(h: Host, id: nat)
    requires Pending(h, id) && !h.calls[id].pc.ReleasingLock?
    ensures Waits(h, Caller(id)) <==> forall s :: !StopEnabled(h, id, s)
  {
    match h.calls[id].pc
    case Wanting =>
      assert StopEnabled(h, id, Enter) <==> h.lifecycle.None?;
      if h.lifecycle.Some? { assert WaitsFor(h, Caller(id), h.lifecycle.value); }
    case Checking => assert StopEnabled(h, id, Check);
    case SettingRequested => assert StopEnabled(h, id, SetRequested);
    case SettingHeartbeatStop => assert StopEnabled(h, id, SetHeartbeatStop);
    case StoppingServer => assert StopEnabled(h, id, StopServer);
    case AwaitingServer =>
      assert StopEnabled(h, id, ServerJoined) <==> h.server.ServerExited?;
      assert WaitsFor(h, Caller(id), Server) <==> !h.server.ServerExited?;
    case AwaitingHeartbeat =>
      assert StopEnabled(h, id, HeartbeatJoined) <==> h.heartbeat.HeartbeatExited?;
      assert WaitsFor(h, Caller(id), Heartbeat) <==> !h.heartbeat.HeartbeatExited?;
    case WritingFinal => assert StopEnabled(h, id, WriteFinal);
    case DeletingToken => assert StopEnabled(h, id, DeleteToken);
  }

  lemma ServerBlocked(h: Host)
    requires !h.server.ServerAbsent? && !h.server.ServerExited? && !AtClient(h.server)
    ensures Waits(h, Server) <==> forall s :: !ServerEnabled(h, s)
  {
    match h.server
    case Serving => assert ServerEnabled(h, if h.serverStop then ServerLeaves else TakeRequest);
    case Handling => assert ServerEnabled(h, AnswerAlone);
    case ServerWaits =>
      assert ServerEnabled(h, GainAuthority) <==> h.authority.None?;
      if h.authority.Some? { assert WaitsFor(h, Server, h.authority.value); }
    case Dispatching => assert ServerEnabled(h, FinishDispatch);
  }

  lemma HeartbeatBlocked(h: Host)
    requires !h.heartbeat.HeartbeatAbsent? && !h.heartbeat.HeartbeatExited?
    ensures Waits(h, Heartbeat) <==> forall s :: !HeartbeatEnabled(h, s)
  {
    match h.heartbeat
    case Sleeping => assert HeartbeatEnabled(h, if h.heartbeatStop then HeartbeatLeaves else Wake);
    case HeartbeatWaits =>
      assert HeartbeatEnabled(h, GainHeartbeatAuthority) <==> h.authority.None?;
      if h.authority.Some? { assert WaitsFor(h, Heartbeat, h.authority.value); }
    case Renewing => assert HeartbeatEnabled(h, Renewed);
    case TestingRunning => assert HeartbeatEnabled(h, Test);
    case Snapshotting => assert HeartbeatEnabled(h, Snapshot);
    case Writing(_) => assert HeartbeatEnabled(h, WriteBeat);
  }

  function WaitRank(h: Host, t: Thread): nat {
    match t
    case Starter => if h.start.NotStarted? then 4 else 0
    case Caller(id) => if id in h.calls && h.calls[id].pc.Wanting? then 4 else 3
    case Server => if h.server.ServerWaits? then 2 else 1
    case Heartbeat => if h.heartbeat.HeartbeatWaits? then 2 else 1
  }

  lemma WaitingGoesDown(h: Host, t: Thread, u: Thread)
    requires Inv(h) && WaitsFor(h, t, u)
    ensures WaitRank(h, u) < WaitRank(h, t)
  {
  }

  ghost predicate WaitChain(h: Host, chain: seq<Thread>) {
    forall k :: 0 <= k < |chain| - 1 ==> WaitsFor(h, chain[k], chain[k + 1])
  }

  lemma {:induction false} ChainGoesDown(h: Host, chain: seq<Thread>)
    requires Inv(h) && WaitChain(h, chain) && |chain| >= 2
    ensures WaitRank(h, chain[|chain| - 1]) < WaitRank(h, chain[0])
  {
    var n := |chain|;
    WaitingGoesDown(h, chain[n - 2], chain[n - 1]);
    if n > 2 {
      var front := chain[..n - 1];
      assert forall k :: 0 <= k < |front| ==> front[k] == chain[k];
      ChainGoesDown(h, front);
    }
  }

  /** In no reachable state do threads of a host wait for each other in a cycle. */
  lemma NoWaitCycle(c: L.Config, worlds: seq<S.World>, events: seq<S.Event>, k: nat, i: Instance, chain: seq<Thread>)
    requires S.IsRun(c, worlds, events) && k < |worlds| && i in worlds[k].hosts
    requires WaitChain(worlds[k].hosts[i], chain) && |chain| >= 2
    ensures chain[0] != chain[|chain| - 1]
  {
    S.HostsAlongRun(c, worlds, events, k);
    ChainGoesDown(worlds[k].hosts[i], chain);
  }

  // ----- progress

  /** A step of one of the host's own threads: neither a new caller nor the peer of a connection. */
  predicate IsHostStep(a: Action) {
    !a.Call? && !a.Ask? && !a.ClientStep?
  }

  lemma AcquisitionCanGoOn(c: L.Config, instances: set<Instance>, dead: set<L.Process>, f: Files, i: Instance, h: Host)
    returns (a: Action)
    requires Inv(h) && h.start.Acquiring?
    requires f.lock.Present? ==> f.lock.creator in instances
    ensures Enabled(c, instances, dead, f, i, h, a) && IsHostStep(a)
  {
    match h.lock
    case Idle => a := LockStep(L.Begin);
    case Opening(_) => a := LockStep(if f.lock.Absent? then L.OpenCreates else L.OpenFindsFile);
    case Reading(_) => a := LockStep(if f.lock.Present? && f.lock.written then L.ReadOwner else L.ReadUnreadable);
    case Checking(_, _) => a := LockStep(L.CheckSaysAlive);
    case Unlinking(_) => a := LockStep(L.UnlinkStale);
    case Writing => a := LockStep(L.WritePayload);
    case Verifying => a := LockStep(L.VerifyPasses);
    case Held => a := StartStep(HaveLock);
    case Refused => a := StartStep(StartRefused);
  }

  lemma ReleaseCanGoOn(c: L.Config, instances: set<Instance>, dead: set<L.Process>, f: Files, i: Instance, h: Host,
                       done: Action)
    returns (a: Action)
    requires Inv(h) && Releasing(h.lock) && LockStepAllowed(h, L.UnlinkOwn)
    requires h.lock.Released? ==> Enabled(c, instances, dead, f, i, h, done) && IsHostStep(done)
    ensures Enabled(c, instances, dead, f, i, h, a) && IsHostStep(a)
  {
    match h.lock
    case Held => a := LockStep(L.BeginRelease);
    case Comparing => a := LockStep(L.CompareOwner);
    case Removing => a := LockStep(L.UnlinkOwn);
    case Released => a := done;
  }

  lemma StarterCanGoOn(c: L.Config, instances: set<Instance>, dead: set<L.Process>, f: Files, i: Instance, h: Host)
    returns (a: Action)
    requires Inv(h) && MidStart(h.start)
    requires f.lock.Present? ==> f.lock.creator in instances
    ensures Enabled(c, instances, dead, f, i, h, a) && IsHostStep(a)
  {
    match h.start
    case Acquiring => a := AcquisitionCanGoOn(c, instances, dead, f, i, h);
    case CleaningLock => a := ReleaseCanGoOn(c, instances, dead, f, i, h, StartStep(CleanupDone));
    case CleaningToken => a := StartStep(TokenCleaned);
    case Spawning => a := StartStep(ThreadsStarted);
    case _ => a := StartStep(StartFails(false));
  }

  lemma HeartbeatCanGoOn(h: Host) returns (a: Action)
    requires Inv(h) && h.heartbeatStop && !h.heartbeat.HeartbeatAbsent? && !h.heartbeat.HeartbeatExited?
    requires h.authority != Some(Server)
    ensures a.HeartbeatStep? && HeartbeatEnabled(h, a.heartbeat)
  {
    match h.heartbeat
    case Sleeping => a := HeartbeatStep(HeartbeatLeaves);
    case HeartbeatWaits => a := HeartbeatStep(GainHeartbeatAuthority);
    case Renewing => a := HeartbeatStep(Renewed);
    case TestingRunning => a := HeartbeatStep(Test);
    case Snapshotting => a := HeartbeatStep(Snapshot);
    case Writing(_) => a := HeartbeatStep(WriteBeat);
  }

  lemma ServerCanGoOn(h: Host) returns (a: Action)
    requires Inv(h) && h.serverStop && h.heartbeatStop && !h.server.ServerAbsent? && !h.server.ServerExited?
    requires !h.heartbeat.HeartbeatAbsent? && !(AtClient(h.server) && h.heartbeat.HeartbeatExited?)
    ensures (a.ServerStep? && ServerEnabled(h, a.server)) || (a.HeartbeatStep? && HeartbeatEnabled(h, a.heartbeat))
  {
    match h.server
    case Serving => a := ServerStep(ServerLeaves);
    case Handling => a := ServerStep(AnswerAlone);
    case Dispatching => a := ServerStep(FinishDispatch);
    case ServerWaits =>
      if h.authority.None? {
        a := ServerStep(GainAuthority);
      } else {
        a := HeartbeatCanGoOn(h);
      }
    case _ => a := HeartbeatCanGoOn(h);
  }

  lemma HolderCanGoOn(c: L.Config, instances: set<Instance>, dead: set<L.Process>, f: Files, i: Instance, h: Host,
                      id: nat)
    returns (a: Action)
    requires Inv(h) && h.lifecycle == Some(Caller(id)) && !Stalled(h)
    ensures Enabled(c, instances, dead, f, i, h, a) && IsHostStep(a)
  {
    match h.calls[id].pc
    case Checking => a := StopStep(id, Check);
    case SettingRequested => a := StopStep(id, SetRequested);
    case SettingHeartbeatStop => a := StopStep(id, SetHeartbeatStop);
    case StoppingServer => a := StopStep(id, StopServer);
    case AwaitingServer =>
      assert h.winner == Some(id);
      if h.server.ServerExited? { a := StopStep(id, ServerJoined); } else { a := ServerCanGoOn(h); }
    case AwaitingHeartbeat =>
      assert h.winner == Some(id);
      if h.heartbeat.HeartbeatExited? { a := StopStep(id, HeartbeatJoined); } else { a := HeartbeatCanGoOn(h); }
    case WritingFinal => a := StopStep(id, WriteFinal);
    case DeletingToken => a := StopStep(id, DeleteToken);
    case ReleasingLock =>
      assert h.winner == Some(id);
      a := ReleaseCanGoOn(c, instances, dead, f, i, h, StopStep(id, FinishStop));
  }

  /** The shutdown body waits for the transport thread, which waits for its client, and the heartbeat has ended. */
  predicate Stalled(h: Host) {
    Stage(h.winner, h.calls).AwaitingServer? && AtClient(h.server) && h.heartbeat.HeartbeatExited?
  }

  predicate Pending(h: Host, id: nat) {
    id in h.calls && !h.calls[id].pc.Returned? && !h.calls[id].pc.Aborted?
  }

  ghost predicate CanMove(c: L.Config, instances: set<Instance>, dead: set<L.Process>, f: Files, i: Instance, h: Host) {
    exists a :: IsHostStep(a) && Enabled(c, instances, dead, f, i, h, a)
  }

  lemma UnstalledCanMove(c: L.Config, instances: set<Instance>, dead: set<L.Process>, f: Files, i: Instance, h: Host,
                         id: nat)
    requires Inv(h) && Pending(h, id) && !Stalled(h)
    requires f.lock.Present? ==> f.lock.creator in instances
    ensures CanMove(c, instances, dead, f, i, h)
  {
    var a: Action;
    match h.lifecycle {
      case None => a := StopStep(id, Enter);
      case Some(Starter) => a := StarterCanGoOn(c, instances, dead, f, i, h);
      case Some(Caller(holder)) => a := HolderCanGoOn(c, instances, dead, f, i, h, holder);
    }
    assert IsHostStep(a) && Enabled(c, instances, dead, f, i, h, a);
  }

  lemma StalledCannotMove(c: L.Config, instances: set<Instance>, dead: set<L.Process>, f: Files, i: Instance, h: Host,
                          a: Action)
    requires Inv(h) && Stalled(h) && IsHostStep(a)
    ensures !Enabled(c, instances, dead, f, i, h, a)
  {
    assert h.start.Started? && h.lifecycle == Some(Caller(h.winner.value));
    if a.StopStep? && a.id in h.calls {
      assert a.id == h.winner.value || !InBody(h.calls[a.id].pc);
    }
  }

  lemma MovesIffNotStalled(c: L.Config, instances: set<Instance>, dead: set<L.Process>, f: Files, i: Instance, h: Host,
                           id: nat)
    requires Inv(h) && Pending(h, id)
    requires f.lock.Present? ==> f.lock.creator in instances
    ensures CanMove(c, instances, dead, f, i, h) <==> !Stalled(h)
  {
    if Stalled(h) {
      forall a | IsHostStep(a) ensures !Enabled(c, instances, dead, f, i, h, a) {
        StalledCannotMove(c, instances, dead, f, i, h, a);
      }
    } else {
      UnstalledCanMove(c, instances, dead, f, i, h, id);
    }
  }

  /** In every state of every run the lock file was created by one of the hosts. */
  lemma {:induction false} CreatorIsHost(c: L.Config, worlds: seq<S.World>, events: seq<S.Event>, k: nat)
    requires S.IsRun(c, worlds, events) && k < |worlds|
    ensures worlds[k].files.lock.Present? ==> worlds[k].files.lock.creator in worlds[k].hosts
  {
    if k > 0 {
      CreatorIsHost(c, worlds, events, k - 1);
      assert S.Next(c, worlds[k - 1], events[k - 1], worlds[k]);
      S.WorldRefinesLock(c, worlds[k - 1], events[k - 1], worlds[k]);
    }
  }

  /** Some thread of a live host can take a step of the world. */
  ghost predicate HostCanStep(c: L.Config, w: S.World, i: Instance) {
    exists a, w' :: IsHostStep(a) && S.Next(c, w, S.Act(i, a), w')
  }

  /**
   In every reachable state, with a call of `stop` pending on a live host, some thread of the host can
   take a step if and only if the host is not stalled by a client: the transport thread has no timeout
   on reading a request or writing a response, and `stop` waits for it.
   */
  lemma PendingStopMovesIffNotStalled(c: L.Config, worlds: seq<S.World>, events: seq<S.Event>, k: nat, i: Instance,
                                      id: nat)
    requires S.IsRun(c, worlds, events) && k < |worlds|
    requires i in worlds[k].hosts && L.Live(c, worlds[k].dead, i) && Pending(worlds[k].hosts[i], id)
    ensures HostCanStep(c, worlds[k], i) <==> !Stalled(worlds[k].hosts[i])
  {
    var w := worlds[k];
    var h := w.hosts[i];
    S.HostsAlongRun(c, worlds, events, k);
    CreatorIsHost(c, worlds, events, k);
    MovesIffNotStalled(c, w.hosts.Keys, w.dead, w.files, i, h, id);
    if CanMove(c, w.hosts.Keys, w.dead, w.files, i, h) {
      var a :| IsHostStep(a) && Enabled(c, w.hosts.Keys, w.dead, w.files, i, h, a);
      var w' := w.(files := FilesAfter(w.files, i, h, a), hosts := w.hosts[i := HostAfter(w.files, i, h, a)]);
      assert S.Next(c, w, S.Act(i, a), w');
    }
  }
}

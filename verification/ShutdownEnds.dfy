/**
 A shutdown comes to an end: once the transport thread has been told to stop, the host has a bounded
 number of steps left, so running it on leads to the end of the shutdown body or to a stall.
 */
module ShutdownEnds {
  import opened Counting
  import opened Options
  import L = InstanceLock
  import opened ManagedHost
  import S = ManagedService
  import opened HostShutdown

  /** The shutdown body has told both threads to stop and has not ended. */
  predicate Ending(h: Host) {
    var stage := Stage(h.winner, h.calls);
    || stage.AwaitingServer? || stage.AwaitingHeartbeat? || stage.WritingFinal? || stage.DeletingToken?
    || stage.ReleasingLock?
  }

  function StageWork(pc: StopPc): nat {
    match pc
    case AwaitingServer => 5
    case AwaitingHeartbeat => 4
    case WritingFinal => 3
    case DeletingToken => 2
    case ReleasingLock => 1
    case _ => 0
  }

  /** The request in hand is finished, answered, and no other is taken. */
  function ServerWork(pc: ServerPc): nat {
    match pc
    case ReadingRequest => 6
    case Handling => 5
    case ServerWaits => 4
    case Dispatching => 3
    case Replying => 2
    case Serving => 1
    case _ => 0
  }

  /** The renewal in hand is finished, and no other is begun. */
  function HeartbeatWork(pc: HeartbeatPc): nat {
    match pc
    case HeartbeatWaits => 6
    case Renewing => 5
    case TestingRunning => 4
    case Snapshotting => 3
    case Writing(_) => 2
    case Sleeping => 1
    case _ => 0
  }

  /** The most steps the host's threads and its client have left while the body is ending. */
  function Work(h: Host): nat {
    StageWork(Stage(h.winner, h.calls)) + ServerWork(h.server) + HeartbeatWork(h.heartbeat) + L.StepsLeft(h.lock)
  }

  /** Another call of `stop` begins; it waits for the lifecycle lock until the body has ended. */
  predicate IsNewCall(a: Action) {
    a.Call? || a.Ask?
  }

  /** Where the other threads are while the body is ending. */
  lemma EndingMeans(h: Host)
    requires Inv(h) && Ending(h)
    ensures h.start.Started? && h.winner.Some? && h.lifecycle == Some(Caller(h.winner.value))
    ensures h.serverStop || h.server.ServerExited?
    ensures h.heartbeatStop || h.heartbeat.HeartbeatExited?
    ensures Releasing(h.lock)
  {
    var id := h.winner.value;
    assert InBody(h.calls[id].pc);
  }

  lemma StopWork(h: Host, id: nat, s: StopAction)
    requires Inv(h) && Ending(h) && StopEnabled(h, id, s)
    ensures Work(StopHost(h, id, s)) < Work(h)
  {
    EndingMeans(h);
    assert !s.Enter?;
    assert Inside(h.calls[id].pc);
    assert h.lifecycle == Some(Caller(id));
  }

  lemma ServerSteps(h: Host, s: ServerAction)
    requires h.serverStop && ServerEnabled(h, s)
    ensures Work(ServerHost(h, s)) < Work(h)
  {
  }

  lemma HeartbeatSteps(h: Host, b: HeartbeatAction)
    requires h.heartbeatStop && HeartbeatEnabled(h, b)
    ensures Work(HeartbeatHost(h, b)) < Work(h)
  {
  }

  lemma LockSteps(c: L.Config, instances: set<Instance>, dead: set<L.Process>, f: Files, i: Instance, h: Host,
                  l: L.Action)
    requires Releasing(h.lock) && L.Enabled(c, instances, dead, f.lock, i, h.lock, l)
    ensures Work(h.(lock := L.PcAfter(f.lock, i, h.lock, l))) < Work(h)
  {
  }

  /** Every step of the host's threads or of its client uses up work, and no other step of the host adds any. */
  lemma WorkGoesDown(c: L.Config, instances: set<Instance>, dead: set<L.Process>, f: Files, i: Instance, h: Host,
                     a: Action)
    requires Inv(h) && Ending(h) && Enabled(c, instances, dead, f, i, h, a)
    ensures IsNewCall(a) ==> Work(HostAfter(f, i, h, a)) == Work(h)
    ensures !IsNewCall(a) ==> Work(HostAfter(f, i, h, a)) < Work(h)
  {
    EndingMeans(h);
    match a
    case LockStep(l) => LockSteps(c, instances, dead, f, i, h, l);
    case StartStep(_) =>
    case StopStep(id, s) => StopWork(h, id, s);
    case ServerStep(s) => ServerSteps(h, s);
    case ClientStep(_) =>
    case HeartbeatStep(b) => HeartbeatSteps(h, b);
    case Call(_, _) =>
    case Ask(_) =>
  }

  predicate IsStepOf(e: S.Event, i: Instance) {
    e.Act? && e.who == i && !IsNewCall(e.action)
  }

  function StepCount(e: S.Event, i: Instance): nat {
    if IsStepOf(e, i) then 1 else 0
  }

  /** How many of the events are steps of the host's threads or of its client. */
  function HostSteps(events: seq<S.Event>, i: Instance): nat {
    Count(events, (e: S.Event) => IsStepOf(e, i))
  }

  /** The body of host `i` is ending from world `k` to world `m`. */
  ghost predicate EndingFrom(worlds: seq<S.World>, k: nat, m: nat, i: Instance)
    requires k <= m < |worlds|
  {
    forall n :: k <= n <= m ==> i in worlds[n].hosts && Ending(worlds[n].hosts[i])
  }

  lemma StepUsesWork(c: L.Config, w: S.World, e: S.Event, w': S.World, i: Instance)
    requires S.Next(c, w, e, w') && i in w.hosts && i in w'.hosts && Inv(w.hosts[i]) && Ending(w.hosts[i])
    ensures StepCount(e, i) + Work(w'.hosts[i]) <= Work(w.hosts[i])
  {
    if e.Act? && e.who == i {
      WorkGoesDown(c, w.hosts.Keys, w.dead, w.files, i, w.hosts[i], e.action);
    }
  }

  lemma StepsSplit(events: seq<S.Event>, k: nat, m: nat, i: Instance)
    requires k < m <= |events|
    ensures HostSteps(events[k..m], i) == HostSteps(events[k..m - 1], i) + StepCount(events[m - 1], i)
  {
    var part := events[k..m];
    assert part[..|part| - 1] == events[k..m - 1] && part[|part| - 1] == events[m - 1];
  }

  lemma WorkAt(c: L.Config, worlds: seq<S.World>, events: seq<S.Event>, n: nat, i: Instance)
    requires S.IsRun(c, worlds, events) && n < |events|
    requires i in worlds[n].hosts && Ending(worlds[n].hosts[i]) && i in worlds[n + 1].hosts
    ensures StepCount(events[n], i) + Work(worlds[n + 1].hosts[i]) <= Work(worlds[n].hosts[i])
  {
    S.HostsAlongRun(c, worlds, events, n);
    StepUsesWork(c, worlds[n], events[n], worlds[n + 1], i);
  }

  /** Work that goes down with every step bounds the number of steps. */
  lemma {:induction false} StepsWithin(events: seq<S.Event>, k: nat, m: nat, i: Instance, work: nat -> nat)
    requires k <= m <= |events|
    requires forall n :: k <= n < m ==> StepCount(events[n], i) + work(n + 1) <= work(n)
    ensures HostSteps(events[k..m], i) + work(m) <= work(k)
    decreases m
  {
    if m > k {
      StepsWithin(events, k, m - 1, i, work);
      StepsSplit(events, k, m, i);
    } else {
      assert events[k..m] == [];
    }
  }

  function WorkIn(worlds: seq<S.World>, i: Instance): nat -> nat {
    (n: nat) => if n < |worlds| && i in worlds[n].hosts then Work(worlds[n].hosts[i]) else 0
  }

  lemma WorkAlongRun(c: L.Config, worlds: seq<S.World>, events: seq<S.Event>, k: nat, m: nat, i: Instance)
    requires S.IsRun(c, worlds, events) && k <= m < |worlds| && EndingFrom(worlds, k, m, i)
    ensures HostSteps(events[k..m], i) + Work(worlds[m].hosts[i]) <= Work(worlds[k].hosts[i])
  {
    var work := WorkIn(worlds, i);
    forall n | k <= n < m ensures StepCount(events[n], i) + work(n + 1) <= work(n) {
      WorkAt(c, worlds, events, n, i);
    }
    StepsWithin(events, k, m, i, work);
  }

  lemma WorkIsBounded(h: Host)
    requires Inv(h) && Ending(h)
    ensures 1 <= Work(h) <= 20
  {
    EndingMeans(h);
  }

  lemma RestingIsStalled(c: L.Config, worlds: seq<S.World>, events: seq<S.Event>, m: nat, i: Instance)
    requires S.IsRun(c, worlds, events) && m < |worlds| && i in worlds[m].hosts && Ending(worlds[m].hosts[i])
    requires L.Live(c, worlds[m].dead, i) && !HostCanStep(c, worlds[m], i)
    ensures Stalled(worlds[m].hosts[i])
  {
    S.HostsAlongRun(c, worlds, events, m);
    EndingMeans(worlds[m].hosts[i]);
    PendingStopMovesIffNotStalled(c, worlds, events, m, i, worlds[m].hosts[i].winner.value);
  }

  /**
   A shutdown ends: in every run, from the state in which the transport thread was told to stop and as long
   as the body has not returned, the threads of the host and its client together take at most twenty
   steps, whatever other hosts and new callers do; and where no thread of the live host can take another
   one, the host is stalled by its client.  So it returns, is aborted by an error, or is stalled.
   */
  lemma ShutdownCompletes(c: L.Config, worlds: seq<S.World>, events: seq<S.Event>, k: nat, m: nat, i: Instance)
    requires S.IsRun(c, worlds, events) && k <= m < |worlds| && EndingFrom(worlds, k, m, i)
    ensures HostSteps(events[k..m], i) < 20
    ensures L.Live(c, worlds[m].dead, i) && !HostCanStep(c, worlds[m], i) ==> Stalled(worlds[m].hosts[i])
  {
    WorkAlongRun(c, worlds, events, k, m, i);
    S.HostsAlongRun(c, worlds, events, k);
    S.HostsAlongRun(c, worlds, events, m);
    WorkIsBounded(worlds[k].hosts[i]);
    WorkIsBounded(worlds[m].hosts[i]);
    if L.Live(c, worlds[m].dead, i) && !HostCanStep(c, worlds[m], i) { RestingIsStalled(c, worlds, events, m, i); }
  }

  // ----- the start

  function StartWork(pc: StartPc): nat {
    match pc
    case NotStarted => 11
    case Acquiring => 10
    case MakingRuntime => 9
    case ClearingToken => 8
    case CreatingToken => 7
    case Binding => 6
    case Publishing => 5
    case Spawning => 4
    case CleaningToken => 3
    case CleaningLock => 2
    case _ => 0
  }

  /** What the starting thread has left: its own steps and those of the lock. */
  function StarterWork(h: Host): nat {
    StartWork(h.start) + L.StepsLeft(h.lock)
  }

  lemma StarterSteps(f: Files, h: Host, s: StartAction)
    requires MidStart(h.start) && StartEnabled(f, h, s)
    ensures StarterWork(StartHost(h, s)) < StarterWork(h)
  {
  }

  lemma StarterLockSteps(c: L.Config, instances: set<Instance>, dead: set<L.Process>, f: Files, i: Instance, h: Host,
                         l: L.Action)
    requires L.Enabled(c, instances, dead, f.lock, i, h.lock, l)
    ensures StarterWork(h.(lock := L.PcAfter(f.lock, i, h.lock, l))) < StarterWork(h)
  {
  }

  /** A start ends: in the middle of it the starting thread always has a step, its own or one of the lock's, and each
      such step brings it nearer to its end, success or failure. */
  lemma StartEnds(c: L.Config, instances: set<Instance>, dead: set<L.Process>, f: Files, i: Instance, h: Host)
    requires Inv(h) && MidStart(h.start)
    requires f.lock.Present? ==> f.lock.creator in instances
    ensures CanMove(c, instances, dead, f, i, h)
    ensures forall a: Action :: (a.StartStep? || a.LockStep?) && Enabled(c, instances, dead, f, i, h, a) ==>
              StarterWork(HostAfter(f, i, h, a)) < StarterWork(h)
  {
    var step := StarterCanGoOn(c, instances, dead, f, i, h);
    forall a: Action | (a.StartStep? || a.LockStep?) && Enabled(c, instances, dead, f, i, h, a)
      ensures StarterWork(HostAfter(f, i, h, a)) < StarterWork(h)
    {
      match a
      case LockStep(l) => StarterLockSteps(c, instances, dead, f, i, h, l);
      case StartStep(s) => StarterSteps(f, h, s);
    }
  }
}

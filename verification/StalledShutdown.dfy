/**
 A run that ends in a shutdown stalled by a client: one host starts, a client connects and sends
 nothing, `stop` is called and waits for the transport thread, and the heartbeat ends.
 */
module StalledShutdown {
  import opened Options
  import L = InstanceLock
  import opened ManagedHost
  import S = ManagedService
  import opened HostShutdown

  /** A run with one instance, of number 0, that ends with these files and this host. */
  ghost predicate RunTo(worlds: seq<S.World>, events: seq<S.Event>, f: Files, h: Host) {
    && S.IsRun(L.OneProcessEach(), worlds, events)
    && worlds[|events|] == S.World(f, map[0 := h], {})
  }

  lemma Advance(worlds: seq<S.World>, events: seq<S.Event>, f: Files, h: Host, a: Action)
    returns (worlds': seq<S.World>, events': seq<S.Event>)
    requires RunTo(worlds, events, f, h) && Enabled(L.OneProcessEach(), {0}, {}, f, 0, h, a)
    ensures RunTo(worlds', events', FilesAfter(f, 0, h, a), HostAfter(f, 0, h, a))
  {
    var c, w, e := L.OneProcessEach(), S.World(f, map[0 := h], {}), S.Act(0, a);
    var w' := S.World(FilesAfter(f, 0, h, a), map[0 := HostAfter(f, 0, h, a)], {});
    assert w.hosts.Keys == {0} && w'.hosts == w.hosts[0 := HostAfter(f, 0, h, a)];
    worlds', events' := worlds + [w'], events + [e];
    assert S.Next(c, w, e, w');
    forall k | 0 <= k < |events'| ensures S.Next(c, worlds'[k], events'[k], worlds'[k + 1]) {
      assert k < |events| ==> S.Next(c, worlds[k], events[k], worlds[k + 1]);
    }
  }

  /** A host that has not got further than acquiring its lock. */
  function Fresh(lock: L.Pc, start: StartPc, lifecycle: Option<Thread>): Host {
    Host(lock, start, false, false, false, false, lifecycle, None, ServerAbsent, HeartbeatAbsent, map[], 0, None, [], 0)
  }

  lemma LockCreated() returns (worlds: seq<S.World>, events: seq<S.Event>)
    ensures RunTo(worlds, events, Files(L.Present(0, false), None, None), Fresh(L.Writing, Acquiring, Some(Starter)))
  {
    var f, h := Files(L.Absent, None, None), Fresh(L.Idle, NotStarted, None);
    worlds, events := [S.World(f, map[0 := h], {})], [];
    assert NewHost(h);
    worlds, events := Advance(worlds, events, f, h, StartStep(BeginStart));
    h := Fresh(L.Idle, Acquiring, Some(Starter));
    worlds, events := Advance(worlds, events, f, h, LockStep(L.Begin));
    h := h.(lock := L.Opening(0));
    worlds, events := Advance(worlds, events, f, h, LockStep(L.OpenCreates));
  }

  lemma LockTaken() returns (worlds: seq<S.World>, events: seq<S.Event>)
    ensures RunTo(worlds, events, Files(L.Present(0, true), None, None), Fresh(L.Held, Acquiring, Some(Starter)))
  {
    worlds, events := LockCreated();
    var f, h := Files(L.Present(0, false), None, None), Fresh(L.Writing, Acquiring, Some(Starter));
    worlds, events := Advance(worlds, events, f, h, LockStep(L.WritePayload));
    f, h := f.(lock := L.Present(0, true)), h.(lock := L.Verifying);
    worlds, events := Advance(worlds, events, f, h, LockStep(L.VerifyPasses));
  }

  /** A host that is up, with its token and its state published. */
  function Up(): Host {
    Host(L.Held, Started, true, false, false, false, None, None, Serving, Sleeping, map[], 0, None, [Running], 0)
  }

  function UpFiles(): Files {
    Files(L.Present(0, true), Some(0), Some(Published(0, Running)))
  }

  lemma HostUp() returns (worlds: seq<S.World>, events: seq<S.Event>)
    ensures RunTo(worlds, events, UpFiles(), Up())
  {
    worlds, events := LockTaken();
    var f, h := Files(L.Present(0, true), None, None), Fresh(L.Held, Acquiring, Some(Starter));
    worlds, events := Advance(worlds, events, f, h, StartStep(HaveLock));
    h := h.(start := MakingRuntime);
    worlds, events := Advance(worlds, events, f, h, StartStep(RuntimeReady));
    h := h.(start := ClearingToken);
    worlds, events := Advance(worlds, events, f, h, StartStep(TokenCleared));
    h := h.(start := CreatingToken);
    worlds, events := Advance(worlds, events, f, h, StartStep(TokenCreated));
    f, h := f.(token := Some(0)), h.(start := Binding);
    worlds, events := Advance(worlds, events, f, h, StartStep(Bound));
    h := h.(start := Publishing, running := true);
    worlds, events := Advance(worlds, events, f, h, StartStep(StatePublished));
    assert h.history + [Running] == [Running];
    f, h := UpFiles(), h.(start := Spawning, history := [Running]);
    worlds, events := Advance(worlds, events, f, h, StartStep(ThreadsStarted));
  }

  /** The host with one caller of `stop` and the transport thread reading a request. */
  function Stopping(pc: StopPc): Host {
    Up().(server := ReadingRequest, calls := map[0 := StopCall(pc, "CONTROLLED")])
  }

  lemma StopCalled() returns (worlds: seq<S.World>, events: seq<S.Event>)
    ensures RunTo(worlds, events, UpFiles(), Stopping(Checking).(lifecycle := Some(Caller(0))))
  {
    worlds, events := HostUp();
    var f, h := UpFiles(), Up();
    worlds, events := Advance(worlds, events, f, h, ServerStep(TakeRequest));
    h := h.(server := ReadingRequest);
    worlds, events := Advance(worlds, events, f, h, Call(0, "CONTROLLED"));
    h := Stopping(Wanting);
    worlds, events := Advance(worlds, events, f, h, StopStep(0, Enter));
    assert HostAfter(f, 0, h, StopStep(0, Enter)) == Stopping(Checking).(lifecycle := Some(Caller(0)));
  }

  /** The host inside the shutdown body. */
  function InShutdown(pc: StopPc): Host {
    Stopping(pc).(lifecycle := Some(Caller(0)), running := false, bodies := 1, winner := Some(0), before := 1)
  }

  lemma ShutdownWaits() returns (worlds: seq<S.World>, events: seq<S.Event>)
    ensures RunTo(worlds, events, UpFiles(),
                  InShutdown(AwaitingServer).(requested := true, heartbeatStop := true, serverStop := true))
  {
    worlds, events := StopCalled();
    var f, h := UpFiles(), Stopping(Checking).(lifecycle := Some(Caller(0)));
    worlds, events := Advance(worlds, events, f, h, StopStep(0, Check));
    h := InShutdown(SettingRequested);
    assert HostAfter(f, 0, Stopping(Checking).(lifecycle := Some(Caller(0))), StopStep(0, Check)) == h;
    worlds, events := Advance(worlds, events, f, h, StopStep(0, SetRequested));
    assert HostAfter(f, 0, h, StopStep(0, SetRequested)) == InShutdown(SettingHeartbeatStop).(requested := true);
    h := InShutdown(SettingHeartbeatStop).(requested := true);
    worlds, events := Advance(worlds, events, f, h, StopStep(0, SetHeartbeatStop));
    var next := InShutdown(StoppingServer).(requested := true, heartbeatStop := true);
    assert HostAfter(f, 0, h, StopStep(0, SetHeartbeatStop)) == next;
    worlds, events := Advance(worlds, events, f, next, StopStep(0, StopServer));
    assert HostAfter(f, 0, next, StopStep(0, StopServer)) ==
           InShutdown(AwaitingServer).(requested := true, heartbeatStop := true, serverStop := true);
  }

  /** A silent client stalls the shutdown: a run whose last state has a pending `stop` and no step of any thread of the
      host. */
  lemma SilentClientStallsStop() returns (worlds: seq<S.World>, events: seq<S.Event>)
    ensures S.IsRun(L.OneProcessEach(), worlds, events)
    ensures
      var w := worlds[|events|];
      && 0 in w.hosts && L.Live(L.OneProcessEach(), w.dead, 0)
      && Pending(w.hosts[0], 0) && Stalled(w.hosts[0])
      && !HostCanStep(L.OneProcessEach(), w, 0)
  {
    worlds, events := ShutdownWaits();
    var h := InShutdown(AwaitingServer).(requested := true, heartbeatStop := true, serverStop := true);
    worlds, events := Advance(worlds, events, UpFiles(), h, HeartbeatStep(HeartbeatLeaves));
    PendingStopMovesIffNotStalled(L.OneProcessEach(), worlds, events, |events|, 0, 0);
  }

  /** Only the client can end the stall: its step is enabled, and after it the host can move again. */
  lemma ClientEndsStall(c: L.Config, instances: set<Instance>, dead: set<L.Process>, f: Files, i: Instance, h: Host)
    returns (a: ClientAction)
    requires Inv(h) && Stalled(h) && (f.lock.Present? ==> f.lock.creator in instances)
    ensures ClientEnabled(h, a) && CanMove(c, instances, dead, f, i, ClientHost(h, a))
  {
    a := if h.server.ReadingRequest? then RequestEnds else ResponseEnds;
    ClientStepKeepsInv(h, a);
    var h' := ClientHost(h, a);
    assert Stage(h'.winner, h'.calls) == Stage(h.winner, h.calls);
    MovesIffNotStalled(c, instances, dead, f, i, h', h'.winner.value);
  }
}

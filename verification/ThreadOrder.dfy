/** Every thread of a host walks through its code in order, whatever the others do. */
module ThreadOrder {
  import L = InstanceLock
  import opened ManagedHost

  /** `start` runs through its statements; from the first one after the lock up to the published state it may fail, and
      then removes the token and gives up the lock. */
  predicate StartFollows(pc: StartPc, pc': StartPc) {
    match pc
    case NotStarted => pc'.Acquiring?
    case Acquiring => pc'.MakingRuntime? || pc'.StartFailed?
    case MakingRuntime => pc'.ClearingToken? || pc'.CleaningToken?
    case ClearingToken => pc'.CreatingToken? || pc'.CleaningToken?
    case CreatingToken => pc'.Binding? || pc'.CleaningToken?
    case Binding => pc'.Publishing? || pc'.CleaningToken?
    case Publishing => pc'.Spawning? || pc'.CleaningToken?
    case Spawning => pc'.Started?
    case CleaningToken => pc'.CleaningLock?
    case CleaningLock => pc'.StartFailed?
    case _ => false
  }

  /** `stop` stops the server before the heartbeat is joined, writes its final state after both are gone, and releases
      the lock last. */
  predicate StopFollows(pc: StopPc, pc': StopPc) {
    match pc
    case Wanting => pc'.Checking?
    case Checking => pc'.SettingRequested? || pc'.Returned?
    case SettingRequested => pc'.SettingHeartbeatStop?
    case SettingHeartbeatStop => pc'.StoppingServer?
    case StoppingServer => pc'.AwaitingServer?
    case AwaitingServer => pc'.AwaitingHeartbeat?
    case AwaitingHeartbeat => pc'.WritingFinal?
    case WritingFinal => pc'.DeletingToken? || pc' == Aborted(false)
    case DeletingToken => pc'.ReleasingLock? || pc' == Aborted(true)
    case ReleasingLock => pc'.Returned?
    case _ => false
  }

  /** One request after the other: read, handled with or without the authority lock, answered. */
  predicate ServerFollows(pc: ServerPc, pc': ServerPc) {
    match pc
    case ServerAbsent => pc'.Serving?
    case Serving => pc'.ReadingRequest? || pc'.ServerExited?
    case ReadingRequest => pc'.Handling?
    case Handling => pc'.ServerWaits? || pc'.Replying?
    case ServerWaits => pc'.Dispatching?
    case Dispatching => pc'.Replying? || pc'.Serving?
    case Replying => pc'.Serving?
    case ServerExited => false
  }

  /** One renewal after the other, each under the authority lock; an error ends the thread, and so does the stop event
      between two renewals. */
  predicate HeartbeatFollows(pc: HeartbeatPc, pc': HeartbeatPc) {
    match pc
    case HeartbeatAbsent => pc'.Sleeping?
    case Sleeping => pc'.HeartbeatWaits? || pc'.HeartbeatExited?
    case HeartbeatWaits => pc'.Renewing?
    case Renewing => pc'.TestingRunning? || pc'.HeartbeatExited?
    case TestingRunning => pc'.Snapshotting? || pc'.Sleeping?
    case Snapshotting => pc'.Writing?
    case Writing(_) => pc'.Sleeping? || pc'.HeartbeatExited?
    case HeartbeatExited => false
  }

  /** All threads but the callers of `stop` stay where they are. */
  predicate OthersStay(h: Host, h': Host) {
    h'.start == h.start && h'.server == h.server && h'.heartbeat == h.heartbeat
  }

  /** One caller goes one place further and keeps its reason. */
  predicate CallerMoves(calls: map<nat, StopCall>, calls': map<nat, StopCall>, id: nat) {
    && id in calls && id in calls' && calls' == calls[id := calls'[id]]
    && calls'[id].reason == calls[id].reason && StopFollows(calls[id].pc, calls'[id].pc)
  }

  /** The thread whose step it is goes one place further and all others stay; the last step of `start` lets the two
      service threads begin, a request is answered unless it raises, a renewal takes down whether the host runs, and
      new callers begin at the beginning. */
  predicate Moves(h: Host, h': Host, a: Action) {
    match a
    case LockStep(_) => OthersStay(h, h') && h'.calls == h.calls
    case StartStep(s) =>
      && StartFollows(h.start, h'.start) && h'.calls == h.calls
      && if s.ThreadsStarted? then ServerFollows(h.server, h'.server) && HeartbeatFollows(h.heartbeat, h'.heartbeat)
         else h'.server == h.server && h'.heartbeat == h.heartbeat
    case StopStep(id, _) => OthersStay(h, h') && CallerMoves(h.calls, h'.calls, id)
    case ServerStep(s) =>
      && ServerFollows(h.server, h'.server) && OthersStay(h, h'.(server := h.server)) && h'.calls == h.calls
      && (s.FinishDispatch? || s.AnswerAlone? ==> h'.server.Replying?)
    case ClientStep(_) =>
      ServerFollows(h.server, h'.server) && OthersStay(h, h'.(server := h.server)) && h'.calls == h.calls
    case HeartbeatStep(_) =>
      && HeartbeatFollows(h.heartbeat, h'.heartbeat) && OthersStay(h, h'.(heartbeat := h.heartbeat))
      && h'.calls == h.calls
      && (h'.heartbeat.Writing? ==> h'.heartbeat.value == if h.running then Running else StoppedBare)
    case Call(id, reason) => OthersStay(h, h') && h'.calls == h.calls[id := StopCall(Wanting, reason)]
    case Ask(id) => OthersStay(h, h') && h'.calls == h.calls[id := StopCall(Wanting, "CLIENT_REQUEST")]
  }

  /** The shutdown event and the two stop flags stay set. */
  predicate FlagsStay(h: Host, h': Host) {
    (h.requested ==> h'.requested) && (h.heartbeatStop ==> h'.heartbeatStop) && (h.serverStop ==> h'.serverStop)
  }

  lemma CallerFollows(h: Host, id: nat, s: StopAction)
    requires StopEnabled(h, id, s)
    ensures
      var calls := StopHost(h, id, s).calls;
      && id in calls && calls == h.calls[id := calls[id]]
      && calls[id].reason == h.calls[id].reason && StopFollows(h.calls[id].pc, calls[id].pc)
  {
  }

  lemma CallerMoved(h: Host, id: nat, s: StopAction)
    requires StopEnabled(h, id, s)
    ensures CallerMoves(h.calls, StopHost(h, id, s).calls, id)
  {
    CallerFollows(h, id, s);
  }

  lemma StopKeepsThreads(h: Host, id: nat, s: StopAction)
    requires StopEnabled(h, id, s)
    ensures OthersStay(h, StopHost(h, id, s)) && FlagsStay(h, StopHost(h, id, s))
  {
    forall pc ensures h.(calls := h.calls[id := h.calls[id].(pc := pc)]) == At(h, id, pc) {}
  }

  lemma StartStepFollows(f: Files, h: Host, s: StartAction)
    requires StageInv(h) && StartEnabled(f, h, s)
    ensures Moves(h, StartHost(h, s), StartStep(s)) && FlagsStay(h, StartHost(h, s))
  {
    if s.ThreadsStarted? { assert h.server.ServerAbsent? && h.heartbeat.HeartbeatAbsent?; }
  }

  lemma ServerStepFollows(h: Host, s: ServerAction)
    requires ServerEnabled(h, s)
    ensures Moves(h, ServerHost(h, s), ServerStep(s)) && FlagsStay(h, ServerHost(h, s))
  {
  }

  lemma ClientStepFollows(h: Host, s: ClientAction)
    requires ClientEnabled(h, s)
    ensures Moves(h, ClientHost(h, s), ClientStep(s)) && FlagsStay(h, ClientHost(h, s))
  {
  }

  lemma HeartbeatStepFollows(h: Host, s: HeartbeatAction)
    requires HeartbeatEnabled(h, s)
    ensures Moves(h, HeartbeatHost(h, s), HeartbeatStep(s)) && FlagsStay(h, HeartbeatHost(h, s))
  {
  }

  /** Each step of a host moves one thread along its code and leaves the others where they are, and nobody clears the
      shutdown event or a stop flag. */
  lemma ThreadsFollowCode(c: L.Config, instances: set<Instance>, dead: set<L.Process>, f: Files, i: Instance, h: Host,
                          a: Action)
    requires Inv(h) && Enabled(c, instances, dead, f, i, h, a)
    ensures Moves(h, HostAfter(f, i, h, a), a) && FlagsStay(h, HostAfter(f, i, h, a))
  {
    match a
    case LockStep(_) =>
    case StartStep(s) => StartStepFollows(f, h, s);
    case StopStep(id, s) =>
      CallerMoved(h, id, s);
      StopKeepsThreads(h, id, s);
    case ServerStep(s) => ServerStepFollows(h, s);
    case ClientStep(s) => ClientStepFollows(h, s);
    case HeartbeatStep(s) => HeartbeatStepFollows(h, s);
    case Call(_, _) =>
    case Ask(_) =>
  }

  /** Errors can come where the code can raise: in `start` between the lock and the published state, in the last two
      file operations of `stop`, in dispatching a request, and in a renewal. */
  lemma ErrorsCanCome(f: Files, h: Host, id: nat, partial: bool)
    ensures StartEnabled(f, h, StartFails(partial)) <==>
            h.start in {MakingRuntime, ClearingToken, CreatingToken, Binding, Publishing}
    ensures StopEnabled(h, id, StopFails) <==> id in h.calls && h.calls[id].pc in {WritingFinal, DeletingToken}
    ensures ServerEnabled(h, DispatchRaises) <==> h.server == Dispatching
    ensures HeartbeatEnabled(h, BeatFails) <==> h.heartbeat == Renewing || exists v :: h.heartbeat == Writing(v)
  {
  }
}

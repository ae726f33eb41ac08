/**
 One managed service host: the thread that starts it, any number of callers of `stop`, the
 transport thread and the heartbeat thread, as small steps over the host's fields, its two locks
 and the files it publishes.
 */
module ManagedHost {
  import opened Options
  import L = InstanceLock

  type Instance = L.Instance

  /** What the state file says: running, stopped without a reason (a heartbeat that raced with a
      stop), or stopped by the shutdown body with its caller's reason. */
  datatype StateValue = Running | StoppedBare | StoppedFor(reason: string)

  datatype Thread = Starter | Caller(id: nat) | Server | Heartbeat

  datatype StartPc =
    | NotStarted | Acquiring | MakingRuntime | ClearingToken | CreatingToken | Binding
    | Publishing | Spawning | Started | CleaningToken | CleaningLock | StartFailed

  datatype StopPc =
    | Wanting | Checking | SettingRequested | SettingHeartbeatStop | StoppingServer | AwaitingServer
    | AwaitingHeartbeat | WritingFinal | DeletingToken | ReleasingLock | Returned | Aborted(finalWritten: bool)

  /** One request at a time: `ReadingRequest` lasts until the client has sent a line, too much, or
      closed; `Replying` until the response is taken or the connection is gone. */
  datatype ServerPc =
    | ServerAbsent | Serving | ReadingRequest | Handling | ServerWaits | Dispatching | Replying | ServerExited

  datatype HeartbeatPc =
    | HeartbeatAbsent | Sleeping | HeartbeatWaits | Renewing | TestingRunning | Snapshotting
    | Writing(value: StateValue) | HeartbeatExited

  datatype StopCall = StopCall(pc: StopPc, reason: string)

  /** The fields of the host, the counters of its threads, and four history fields: how often the
      shutdown body was entered, by whom, every value the host wrote to the state file, and how many
      it had written when the body was entered. */
  datatype Host = Host(
    lock: L.Pc,
    start: StartPc,
    running: bool,
    requested: bool,
    heartbeatStop: bool,
    serverStop: bool,
    lifecycle: Option<Thread>,
    authority: Option<Thread>,
    server: ServerPc,
    heartbeat: HeartbeatPc,
    calls: map<nat, StopCall>,
    bodies: nat,
    winner: Option<nat>,
    history: seq<StateValue>,
    before: nat)

  /** The files under the state root. */
  datatype Published = Published(author: Instance, value: StateValue)
  datatype Files = Files(lock: L.LockFile, token: Option<Instance>, state: Option<Published>)

  datatype StartAction =
    | BeginStart | StartRefused | HaveLock | RuntimeReady | TokenCleared | TokenCreated | Bound
    | StatePublished | ThreadsStarted | StartFails(partial: bool) | TokenCleaned | CleanupDone

  datatype StopAction =
    | Enter | Check | SetRequested | SetHeartbeatStop | StopServer | ServerJoined | HeartbeatJoined
    | WriteFinal | DeleteToken | StopFails | FinishStop

  datatype ServerAction =
    | TakeRequest | NeedAuthority | AnswerAlone | GainAuthority | FinishDispatch | DispatchRaises | ServerLeaves

  /** What only the peer of the connection can do. */
  datatype ClientAction = RequestEnds | ResponseEnds

  datatype HeartbeatAction =
    | Wake | GainHeartbeatAuthority | Renewed | BeatFails | Test | Snapshot | WriteBeat | HeartbeatLeaves

  /** `Ask` is a client request or a signal: the event is set and a stop thread is born.  `Call` is
      any other caller of `stop`, the main thread among them. */
  datatype Action =
    | LockStep(lock: L.Action)
    | StartStep(start: StartAction)
    | StopStep(id: nat, stop: StopAction)
    | ServerStep(server: ServerAction)
    | ClientStep(client: ClientAction)
    | HeartbeatStep(heartbeat: HeartbeatAction)
    | Call(id: nat, reason: string)
    | Ask(id: nat)

  const CLIENT_REQUEST := "CLIENT_REQUEST"

  ghost predicate NewHost(h: Host) {
    h == Host(
      L.Idle, NotStarted, false, false, false, false, None, None, ServerAbsent, HeartbeatAbsent, map[], 0, None, [], 0)
  }

  // ----- start

  predicate MidStart(pc: StartPc) {
    !pc.NotStarted? && !pc.Started? && !pc.StartFailed?
  }

  predicate MayFail(pc: StartPc) {
    pc.MakingRuntime? || pc.ClearingToken? || pc.CreatingToken? || pc.Binding? || pc.Publishing?
  }

  predicate StartEnabled(f: Files, h: Host, a: StartAction) {
    match a
    case BeginStart => h.start.NotStarted? && h.lifecycle.None?
    case StartRefused => h.start.Acquiring? && h.lock.Refused?
    case HaveLock => h.start.Acquiring? && h.lock.Held?
    case RuntimeReady => h.start.MakingRuntime?
    case TokenCleared => h.start.ClearingToken?
    case TokenCreated => h.start.CreatingToken? && f.token.None?
    case Bound => h.start.Binding?
    case StatePublished => h.start.Publishing?
    case ThreadsStarted => h.start.Spawning?
    case StartFails(_) => MayFail(h.start)
    case TokenCleaned => h.start.CleaningToken?
    case CleanupDone => h.start.CleaningLock? && h.lock.Released?
  }

  function StartHost(h: Host, a: StartAction): (h': Host)
    ensures h'.lock == h.lock
  {
    match a
    case BeginStart => h.(start := Acquiring, lifecycle := Some(Starter))
    case StartRefused => h.(start := StartFailed, lifecycle := None)
    case HaveLock => h.(start := MakingRuntime)
    case RuntimeReady => h.(start := ClearingToken)
    case TokenCleared => h.(start := CreatingToken)
    case TokenCreated => h.(start := Binding)
    case Bound => h.(start := Publishing, running := true)
    case StatePublished => h.(start := Spawning, history := h.history + [Running])
    case ThreadsStarted => h.(start := Started, lifecycle := None, server := Serving, heartbeat := Sleeping)
    case StartFails(_) => h.(start := CleaningToken, running := false)
    case TokenCleaned => h.(start := CleaningLock)
    case CleanupDone => h.(start := StartFailed, lifecycle := None)
  }

  function StartFiles(f: Files, i: Instance, h: Host, a: StartAction): (f': Files)
    ensures f'.lock == f.lock
  {
    match a
    case TokenCleared => f.(token := None)
    case TokenCreated => f.(token := Some(i))
    case StatePublished => f.(state := Some(Published(i, Running)))
    case StartFails(partial) =>
      if partial && h.start.CreatingToken? && f.token.None? then f.(token := Some(i)) else f
    case TokenCleaned => f.(token := None)
    case _ => f
  }

  // ----- stop

  predicate InBody(pc: StopPc) {
    !pc.Wanting? && !pc.Checking? && !pc.Returned? && !pc.Aborted?
  }

  predicate StopEnabled(h: Host, id: nat, a: StopAction) {
    id in h.calls &&
    match a
    case Enter => h.calls[id].pc.Wanting? && h.lifecycle.None?
    case Check => h.calls[id].pc.Checking?
    case SetRequested => h.calls[id].pc.SettingRequested?
    case SetHeartbeatStop => h.calls[id].pc.SettingHeartbeatStop?
    case StopServer => h.calls[id].pc.StoppingServer?
    case ServerJoined => h.calls[id].pc.AwaitingServer? && h.server.ServerExited?
    case HeartbeatJoined => h.calls[id].pc.AwaitingHeartbeat? && h.heartbeat.HeartbeatExited?
    case WriteFinal => h.calls[id].pc.WritingFinal?
    case DeleteToken => h.calls[id].pc.DeletingToken?
    case StopFails => h.calls[id].pc.WritingFinal? || h.calls[id].pc.DeletingToken?
    case FinishStop => h.calls[id].pc.ReleasingLock? && h.lock.Released?
  }

  function At(h: Host, id: nat, pc: StopPc): Host
    requires id in h.calls
  {
    h.(calls := h.calls[id := h.calls[id].(pc := pc)])
  }

  function StopHost(h: Host, id: nat, a: StopAction): (h': Host)
    requires id in h.calls
    ensures h'.lock == h.lock
  {
    match a
    case Enter => At(h, id, Checking).(lifecycle := Some(Caller(id)))
    case Check =>
      if h.running
      then At(h, id, SettingRequested).(
             running := false, bodies := h.bodies + 1, winner := Some(id), before := |h.history|)
      else At(h, id, Returned).(lifecycle := None)
    case SetRequested => At(h, id, SettingHeartbeatStop).(requested := true)
    case SetHeartbeatStop => At(h, id, StoppingServer).(heartbeatStop := true)
    case StopServer => At(h, id, AwaitingServer).(serverStop := true)
    case ServerJoined => At(h, id, AwaitingHeartbeat)
    case HeartbeatJoined => At(h, id, WritingFinal)
    case WriteFinal => At(h, id, DeletingToken).(history := h.history + [StoppedFor(h.calls[id].reason)])
    case DeleteToken => At(h, id, ReleasingLock)
    case StopFails => At(h, id, Aborted(h.calls[id].pc.DeletingToken?)).(lifecycle := None)
    case FinishStop => At(h, id, Returned).(lifecycle := None)
  }

  function StopFiles(f: Files, i: Instance, h: Host, id: nat, a: StopAction): (f': Files)
    requires id in h.calls
    ensures f'.lock == f.lock
  {
    match a
    case WriteFinal => f.(state := Some(Published(i, StoppedFor(h.calls[id].reason))))
    case DeleteToken => f.(token := None)
    case _ => f
  }

  // ----- transport thread

  predicate ServerEnabled(h: Host, a: ServerAction) {
    match a
    case TakeRequest => h.server.Serving? && !h.serverStop
    case NeedAuthority => h.server.Handling?
    case AnswerAlone => h.server.Handling?
    case GainAuthority => h.server.ServerWaits? && h.authority.None?
    case FinishDispatch => h.server.Dispatching?
    case DispatchRaises => h.server.Dispatching?
    case ServerLeaves => h.server.Serving? && h.serverStop
  }

  function ServerHost(h: Host, a: ServerAction): (h': Host)
    ensures h'.lock == h.lock
  {
    match a
    case TakeRequest => h.(server := ReadingRequest)
    case NeedAuthority => h.(server := ServerWaits)
    case AnswerAlone => h.(server := Replying)
    case GainAuthority => h.(server := Dispatching, authority := Some(Server))
    case FinishDispatch => h.(server := Replying, authority := None)
    case DispatchRaises => h.(server := Serving, authority := None)
    case ServerLeaves => h.(server := ServerExited)
  }

  /** The transport thread is inside a socket operation that only the client ends: no timeout is set on it. */
  predicate AtClient(pc: ServerPc) {
    pc.ReadingRequest? || pc.Replying?
  }

  predicate ClientEnabled(h: Host, a: ClientAction) {
    match a
    case RequestEnds => h.server.ReadingRequest?
    case ResponseEnds => h.server.Replying?
  }

  function ClientHost(h: Host, a: ClientAction): (h': Host)
    ensures h'.lock == h.lock
  {
    match a
    case RequestEnds => h.(server := Handling)
    case ResponseEnds => h.(server := Serving)
  }

  // ----- heartbeat thread

  predicate HasAuthority(pc: HeartbeatPc) {
    pc.Renewing? || pc.TestingRunning? || pc.Snapshotting? || pc.Writing?
  }

  predicate HeartbeatEnabled(h: Host, a: HeartbeatAction) {
    match a
    case Wake => h.heartbeat.Sleeping? && !h.heartbeatStop
    case GainHeartbeatAuthority => h.heartbeat.HeartbeatWaits? && h.authority.None?
    case Renewed => h.heartbeat.Renewing?
    case BeatFails => h.heartbeat.Renewing? || h.heartbeat.Writing?
    case Test => h.heartbeat.TestingRunning?
    case Snapshot => h.heartbeat.Snapshotting?
    case WriteBeat => h.heartbeat.Writing?
    case HeartbeatLeaves => h.heartbeat.Sleeping? && h.heartbeatStop
  }

  function HeartbeatHost(h: Host, a: HeartbeatAction): (h': Host)
    ensures h'.lock == h.lock
  {
    match a
    case Wake => h.(heartbeat := HeartbeatWaits)
    case GainHeartbeatAuthority => h.(heartbeat := Renewing, authority := Some(Heartbeat))
    case Renewed => h.(heartbeat := TestingRunning)
    case BeatFails => h.(heartbeat := HeartbeatExited, authority := None, requested := true)
    case Test => if h.running then h.(heartbeat := Snapshotting) else h.(heartbeat := Sleeping, authority := None)
    case Snapshot => h.(heartbeat := Writing(if h.running then Running else StoppedBare))
    case WriteBeat =>
      if h.heartbeat.Writing?
      then h.(heartbeat := Sleeping, authority := None, history := h.history + [h.heartbeat.value])
      else h
    case HeartbeatLeaves => h.(heartbeat := HeartbeatExited)
  }

  function HeartbeatFiles(f: Files, i: Instance, h: Host, a: HeartbeatAction): (f': Files)
    ensures f'.lock == f.lock
  {
    if a.WriteBeat? && h.heartbeat.Writing? then f.(state := Some(Published(i, h.heartbeat.value))) else f
  }

  // ----- one step of a host

  /** Which lock steps the host's code performs where: acquisition inside `start`, release at the
      end of the shutdown body and of a failed start. */
  predicate LockStepAllowed(h: Host, a: L.Action) {
    if a.BeginRelease? || a.CompareOwner? || a.UnlinkOwn?
    then h.start.CleaningLock? || Stage(h.winner, h.calls).ReleasingLock?
    else h.start.Acquiring?
  }

  ghost predicate Enabled(c: L.Config, instances: set<Instance>, dead: set<L.Process>, f: Files, i: Instance, h: Host,
                          a: Action)
  {
    match a
    case LockStep(l) => LockStepAllowed(h, l) && L.Enabled(c, instances, dead, f.lock, i, h.lock, l)
    case StartStep(s) => StartEnabled(f, h, s)
    case StopStep(id, s) => StopEnabled(h, id, s)
    case ServerStep(s) => ServerEnabled(h, s)
    case ClientStep(s) => ClientEnabled(h, s)
    case HeartbeatStep(b) => HeartbeatEnabled(h, b)
    case Call(id, _) => id !in h.calls
    case Ask(id) => id !in h.calls
  }

  ghost function HostAfter(f: Files, i: Instance, h: Host, a: Action): Host {
    match a
    case LockStep(l) => h.(lock := L.PcAfter(f.lock, i, h.lock, l))
    case StartStep(s) => StartHost(h, s)
    case StopStep(id, s) => if id in h.calls then StopHost(h, id, s) else h
    case ServerStep(s) => ServerHost(h, s)
    case ClientStep(s) => ClientHost(h, s)
    case HeartbeatStep(b) => HeartbeatHost(h, b)
    case Call(id, reason) => h.(calls := h.calls[id := StopCall(Wanting, reason)])
    case Ask(id) => h.(requested := true, calls := h.calls[id := StopCall(Wanting, CLIENT_REQUEST)])
  }

  ghost function FilesAfter(f: Files, i: Instance, h: Host, a: Action): Files {
    match a
    case LockStep(l) => f.(lock := L.FileAfter(f.lock, i, l))
    case StartStep(s) => StartFiles(f, i, h, s)
    case StopStep(id, s) => if id in h.calls then StopFiles(f, i, h, id, s) else f
    case HeartbeatStep(b) => HeartbeatFiles(f, i, h, b)
    case _ => f
  }

  // ----- the invariant of one host

  predicate Acquisition(pc: L.Pc) {
    !pc.Comparing? && !pc.Removing? && !pc.Released?
  }

  predicate Releasing(pc: L.Pc) {
    pc.Held? || pc.Comparing? || pc.Removing? || pc.Released?
  }

  /** The lifecycle lock is held by the starting thread in the middle of `start`, or by the one
      caller that is inside `stop`. */
  predicate LifecycleInv(lifecycle: Option<Thread>, start: StartPc, calls: map<nat, StopCall>) {
    && (lifecycle == Some(Starter) <==> MidStart(start))
    && (lifecycle.Some? ==> lifecycle.value.Starter? || lifecycle.value.Caller?)
    && (lifecycle.Some? && lifecycle.value.Caller? ==>
          lifecycle.value.id in calls && Inside(calls[lifecycle.value.id].pc))
    && (forall id :: id in calls && Inside(calls[id].pc) ==> lifecycle == Some(Caller(id)))
  }

  predicate Inside(pc: StopPc) {
    pc.Checking? || InBody(pc)
  }

  /** At most one caller ever enters the shutdown body, and it does so by clearing `_running`. */
  predicate BodyInv(bodies: nat, winner: Option<nat>, calls: map<nat, StopCall>, start: StartPc, running: bool) {
    && bodies == (if winner.Some? then 1 else 0)
    && (winner.Some? ==>
          && winner.value in calls
          && start.Started?
          && !running
          && (InBody(calls[winner.value].pc) || calls[winner.value].pc.Returned? || calls[winner.value].pc.Aborted?))
    && (forall id :: id in calls && (InBody(calls[id].pc) || calls[id].pc.Aborted?) ==> winner == Some(id))
    && (start.Started? && winner.None? ==> running)
    && (start.Publishing? || start.Spawning? ==> running)
    && (running ==> start.Publishing? || start.Spawning? || start.Started?)
  }

  /** How far the shutdown body is; `Wanting` when no caller has entered it. */
  function Stage(winner: Option<nat>, calls: map<nat, StopCall>): StopPc {
    if winner.Some? && winner.value in calls then calls[winner.value].pc else Wanting
  }

  predicate ServerGone(stage: StopPc) {
    stage.AwaitingHeartbeat? || HeartbeatGone(stage)
  }

  predicate HeartbeatGone(stage: StopPc) {
    stage.WritingFinal? || stage.DeletingToken? || stage.ReleasingLock? || stage.Returned? || stage.Aborted?
  }

  predicate AuthorityInv(authority: Option<Thread>, server: ServerPc, heartbeat: HeartbeatPc) {
    && (authority == Some(Server) <==> server.Dispatching?)
    && (authority == Some(Heartbeat) <==> HasAuthority(heartbeat))
    && (authority.Some? ==> authority.value.Server? || authority.value.Heartbeat?)
  }

  predicate ServerInv(start: StartPc, server: ServerPc, serverStop: bool, stage: StopPc) {
    && (start.Started? <==> !server.ServerAbsent?)
    && (stage.AwaitingServer? ==> serverStop)
    && (ServerGone(stage) ==> server.ServerExited?)
  }

  predicate HeartbeatInv(start: StartPc, heartbeat: HeartbeatPc, heartbeatStop: bool, stage: StopPc) {
    && (start.Started? <==> !heartbeat.HeartbeatAbsent?)
    && (stage.StoppingServer? || stage.AwaitingServer? || stage.AwaitingHeartbeat? ==> heartbeatStop)
    && (HeartbeatGone(stage) ==> heartbeat.HeartbeatExited?)
  }

  predicate LockInv(lock: L.Pc, start: StartPc, stage: StopPc) {
    match start
    case NotStarted => lock.Idle?
    case Acquiring => Acquisition(lock)
    case Started =>
      if stage.ReleasingLock? then Releasing(lock)
      else if stage.Returned? then lock.Released?
      else lock.Held?
    case CleaningLock => Releasing(lock)
    case StartFailed => lock.Refused? || lock.Released?
    case _ => lock.Held?
  }

  /** The shutdown body has written its final state. */
  predicate FinalWritten(h: Host) {
    var stage := Stage(h.winner, h.calls);
    stage.DeletingToken? || stage.ReleasingLock? || stage.Returned? || (stage.Aborted? && stage.finalWritten)
  }

  predicate HistoryInv(h: Host) {
    && (h.start.Spawning? || h.start.Started? <==> h.history != [])
    && (FinalWritten(h) ==> h.history != [] && h.history[|h.history| - 1] == StoppedFor(h.calls[h.winner.value].reason))
  }

  /** Who is inside `stop`, and whether it is the shutdown body. */
  predicate CallInv(h: Host) {
    && LifecycleInv(h.lifecycle, h.start, h.calls)
    && BodyInv(h.bodies, h.winner, h.calls, h.start, h.running)
  }

  /** Where the other threads and the instance lock are at each stage. */
  predicate StageInv(h: Host) {
    var stage := Stage(h.winner, h.calls);
    && AuthorityInv(h.authority, h.server, h.heartbeat)
    && ServerInv(h.start, h.server, h.serverStop, stage)
    && HeartbeatInv(h.start, h.heartbeat, h.heartbeatStop, stage)
    && LockInv(h.lock, h.start, stage)
  }

  predicate Inv(h: Host) {
    CallInv(h) && StageInv(h) && HistoryInv(h)
  }

  lemma LockStepKeepsInv(c: L.Config, instances: set<Instance>, dead: set<L.Process>, f: Files, i: Instance, h: Host,
                         l: L.Action)
    requires Inv(h) && Enabled(c, instances, dead, f, i, h, LockStep(l))
    ensures Inv(HostAfter(f, i, h, LockStep(l)))
  {
  }

  lemma StartStepKeepsCalls(f: Files, h: Host, a: StartAction)
    requires CallInv(h) && StartEnabled(f, h, a)
    ensures CallInv(StartHost(h, a))
  {
  }

  lemma StartStepKeepsStage(f: Files, h: Host, a: StartAction)
    requires Inv(h) && StartEnabled(f, h, a)
    ensures StageInv(StartHost(h, a)) && HistoryInv(StartHost(h, a))
  {
    assert !h.start.Started? && h.winner.None?;
  }

  lemma StopStepKeepsLifecycle(h: Host, id: nat, a: StopAction)
    requires CallInv(h) && StopEnabled(h, id, a)
    ensures var h' := StopHost(h, id, a); LifecycleInv(h'.lifecycle, h'.start, h'.calls)
  {
  }

  lemma StopStepKeepsBody(h: Host, id: nat, a: StopAction)
    requires CallInv(h) && StopEnabled(h, id, a)
    ensures var h' := StopHost(h, id, a); BodyInv(h'.bodies, h'.winner, h'.calls, h'.start, h'.running)
  {
  }

  lemma StopStepKeepsServer(h: Host, id: nat, a: StopAction)
    requires CallInv(h) && StageInv(h) && StopEnabled(h, id, a)
    ensures
      var h' := StopHost(h, id, a);
      && AuthorityInv(h'.authority, h'.server, h'.heartbeat)
      && ServerInv(h'.start, h'.server, h'.serverStop, Stage(h'.winner, h'.calls))
  {
    assert !a.Enter? && !a.Check? ==> h.winner == Some(id);
  }

  lemma StopStepKeepsHeartbeat(h: Host, id: nat, a: StopAction)
    requires BodyInv(h.bodies, h.winner, h.calls, h.start, h.running) && StopEnabled(h, id, a)
    requires HeartbeatInv(h.start, h.heartbeat, h.heartbeatStop, Stage(h.winner, h.calls))
    ensures
      var h' := StopHost(h, id, a);
      HeartbeatInv(h'.start, h'.heartbeat, h'.heartbeatStop, Stage(h'.winner, h'.calls))
  {
    assert !a.Enter? && !a.Check? ==> h.winner == Some(id);
  }

  lemma StopStepKeepsLock(h: Host, id: nat, a: StopAction)
    requires CallInv(h) && StageInv(h) && StopEnabled(h, id, a)
    ensures var h' := StopHost(h, id, a); LockInv(h'.lock, h'.start, Stage(h'.winner, h'.calls))
  {
    assert !a.Enter? && !a.Check? ==> h.winner == Some(id);
  }

  /** A new caller changes nothing for those already there. */
  lemma SpawnKeepsInv(h: Host, id: nat, reason: string, requested: bool)
    requires Inv(h) && id !in h.calls
    ensures Inv(h.(requested := requested, calls := h.calls[id := StopCall(Wanting, reason)]))
  {
    var h' := h.(requested := requested, calls := h.calls[id := StopCall(Wanting, reason)]);
    assert Stage(h'.winner, h'.calls) == Stage(h.winner, h.calls);
  }

  lemma StopStepKeepsHistory(h: Host, id: nat, a: StopAction)
    requires CallInv(h) && HistoryInv(h) && StopEnabled(h, id, a)
    ensures HistoryInv(StopHost(h, id, a))
  {
    assert !a.Enter? && !a.Check? ==> h.winner == Some(id);
  }

  lemma StopStepKeepsInv(h: Host, id: nat, a: StopAction)
    requires Inv(h) && StopEnabled(h, id, a)
    ensures Inv(StopHost(h, id, a))
  {
    StopStepKeepsLifecycle(h, id, a);
    StopStepKeepsBody(h, id, a);
    StopStepKeepsServer(h, id, a);
    StopStepKeepsHeartbeat(h, id, a);
    StopStepKeepsLock(h, id, a);
    StopStepKeepsHistory(h, id, a);
  }

  lemma ServerStepKeepsInv(h: Host, a: ServerAction)
    requires Inv(h) && ServerEnabled(h, a)
    ensures Inv(ServerHost(h, a))
  {
    assert CallInv(ServerHost(h, a)) && HistoryInv(ServerHost(h, a));
  }

  lemma ClientStepKeepsInv(h: Host, a: ClientAction)
    requires Inv(h) && ClientEnabled(h, a)
    ensures Inv(ClientHost(h, a))
  {
    assert CallInv(ClientHost(h, a)) && HistoryInv(ClientHost(h, a));
  }

  lemma HeartbeatStepKeepsStage(h: Host, a: HeartbeatAction)
    requires Inv(h) && HeartbeatEnabled(h, a)
    ensures StageInv(HeartbeatHost(h, a))
  {
  }

  lemma HeartbeatStepKeepsRest(h: Host, a: HeartbeatAction)
    requires Inv(h) && HeartbeatEnabled(h, a)
    ensures CallInv(HeartbeatHost(h, a)) && HistoryInv(HeartbeatHost(h, a))
  {
    assert FinalWritten(h) ==> h.heartbeat.HeartbeatExited?;
  }

  /** Every step of every thread keeps the invariant of its host. */
  lemma StepKeepsInv(c: L.Config, instances: set<Instance>, dead: set<L.Process>, f: Files, i: Instance, h: Host,
                     a: Action)
    requires Inv(h) && Enabled(c, instances, dead, f, i, h, a)
    ensures Inv(HostAfter(f, i, h, a))
  {
    match a
    case LockStep(l) => LockStepKeepsInv(c, instances, dead, f, i, h, l);
    case StartStep(s) => StartStepKeepsCalls(f, h, s); StartStepKeepsStage(f, h, s);
    case StopStep(id, s) => StopStepKeepsInv(h, id, s);
    case ServerStep(s) => ServerStepKeepsInv(h, s);
    case ClientStep(s) => ClientStepKeepsInv(h, s);
    case HeartbeatStep(b) => HeartbeatStepKeepsStage(h, b); HeartbeatStepKeepsRest(h, b);
    case Call(id, reason) => SpawnKeepsInv(h, id, reason, h.requested);
    case Ask(id) => SpawnKeepsInv(h, id, CLIENT_REQUEST, true);
  }

  // ----- what the host has published, and the stop events

  /** The heartbeat has seen the host running and will write what it finds next. */
  predicate AboutToWrite(pc: HeartbeatPc) {
    pc.Snapshotting? || pc.Writing?
  }

  /** A running host has published Running last, and its heartbeat is not about to write anything else. */
  predicate SaysRunning(h: Host) {
    && (h.running && h.history != [] ==> h.history[|h.history| - 1] == Running)
    && (h.running && h.heartbeat.Writing? ==> h.heartbeat.value == Running)
    && (h.heartbeat.Writing? ==> h.heartbeat.value == Running || h.heartbeat.value == StoppedBare)
  }

  /** Until the shutdown body is entered every value is Running; after that the heartbeat writes at most once more, and
      the final value, if any, comes last. */
  predicate WritesOnceMore(h: Host) {
    && (h.winner.Some? ==>
          && h.before <= |h.history|
          && |h.history| <=
             h.before + (if AboutToWrite(h.heartbeat) then 0 else 1) + (if FinalWritten(h) then 1 else 0))
    && (forall k :: 0 <= k < |h.history| && (h.winner.None? || k < h.before) ==> h.history[k] == Running)
    && (forall k :: 0 <= k < |h.history| && h.history[k].StoppedFor? ==> k == |h.history| - 1 && FinalWritten(h))
  }

  /** A shutdown has been asked for when the body has passed its first step, and when the heartbeat is told to end or
      has ended; only the body tells it. */
  predicate RequestInv(h: Host) {
    && (h.heartbeatStop || h.heartbeat.HeartbeatExited? ==> h.requested)
    && (h.heartbeatStop ==> h.winner.Some? && !Stage(h.winner, h.calls).SettingRequested?)
    && (h.winner.Some? && !Stage(h.winner, h.calls).SettingRequested? ==> h.requested)
  }

  predicate PublicationInv(h: Host) {
    SaysRunning(h) && WritesOnceMore(h) && RequestInv(h)
  }

  lemma StartStepKeepsPublication(f: Files, h: Host, a: StartAction)
    requires Inv(h) && StartEnabled(f, h, a) && PublicationInv(h)
    ensures PublicationInv(StartHost(h, a))
  {
    assert !h.start.Started? && h.winner.None?;
  }

  lemma StopStepKeepsSays(h: Host, id: nat, a: StopAction)
    requires Inv(h) && StopEnabled(h, id, a) && SaysRunning(h)
    ensures SaysRunning(StopHost(h, id, a))
  {
    assert !a.Enter? && !a.Check? ==> h.winner == Some(id);
  }

  lemma StopStepKeepsWrites(h: Host, id: nat, a: StopAction)
    requires CallInv(h) && StopEnabled(h, id, a) && WritesOnceMore(h)
    ensures WritesOnceMore(StopHost(h, id, a))
  {
    assert !a.Enter? && !a.Check? ==> h.winner == Some(id);
    assert FinalWritten(StopHost(h, id, a)) <==> FinalWritten(h) || a.WriteFinal?;
  }

  lemma StopStepKeepsRequest(h: Host, id: nat, a: StopAction)
    requires Inv(h) && StopEnabled(h, id, a) && RequestInv(h)
    ensures RequestInv(StopHost(h, id, a))
  {
    assert !a.Enter? && !a.Check? ==> h.winner == Some(id);
  }

  lemma HeartbeatStepKeepsSays(h: Host, a: HeartbeatAction)
    requires Inv(h) && HeartbeatEnabled(h, a) && SaysRunning(h)
    ensures SaysRunning(HeartbeatHost(h, a))
  {
  }

  lemma HeartbeatStepKeepsWrites(h: Host, a: HeartbeatAction)
    requires Inv(h) && HeartbeatEnabled(h, a) && SaysRunning(h) && WritesOnceMore(h)
    ensures WritesOnceMore(HeartbeatHost(h, a))
  {
    assert !FinalWritten(h) && (FinalWritten(HeartbeatHost(h, a)) <==> FinalWritten(h));
    assert h.winner.None? && a.WriteBeat? ==> h.running;
  }

  lemma HeartbeatStepKeepsRequest(h: Host, a: HeartbeatAction)
    requires HeartbeatEnabled(h, a) && RequestInv(h)
    ensures RequestInv(HeartbeatHost(h, a))
  {
  }

  /** Steps that change only the lock, the transport thread or the authority lock. */
  lemma SamePublication(h: Host, h': Host)
    requires PublicationInv(h) && h' == h.(lock := h'.lock, server := h'.server, authority := h'.authority)
    ensures PublicationInv(h')
  {
  }

  lemma NewCallKeepsPublication(h: Host, id: nat, reason: string, requested: bool)
    requires Inv(h) && id !in h.calls && PublicationInv(h) && (requested || requested == h.requested)
    ensures PublicationInv(h.(requested := requested, calls := h.calls[id := StopCall(Wanting, reason)]))
  {
    var h' := h.(requested := requested, calls := h.calls[id := StopCall(Wanting, reason)]);
    assert Stage(h'.winner, h'.calls) == Stage(h.winner, h.calls);
  }

  lemma LockStepKeepsPublication(h: Host, lock: L.Pc)
    requires PublicationInv(h)
    ensures PublicationInv(h.(lock := lock))
  {
    SamePublication(h, h.(lock := lock));
  }

  lemma ServerStepKeepsPublication(h: Host, a: ServerAction)
    requires PublicationInv(h)
    ensures PublicationInv(ServerHost(h, a))
  {
    SamePublication(h, ServerHost(h, a));
  }

  lemma ClientStepKeepsPublication(h: Host, a: ClientAction)
    requires PublicationInv(h)
    ensures PublicationInv(ClientHost(h, a))
  {
    SamePublication(h, ClientHost(h, a));
  }

  lemma StopStepKeepsPublication(h: Host, id: nat, a: StopAction)
    requires Inv(h) && StopEnabled(h, id, a) && PublicationInv(h)
    ensures PublicationInv(StopHost(h, id, a))
  {
    StopStepKeepsSays(h, id, a);
    StopStepKeepsWrites(h, id, a);
    StopStepKeepsRequest(h, id, a);
  }

  lemma HeartbeatStepKeepsPublication(h: Host, a: HeartbeatAction)
    requires Inv(h) && HeartbeatEnabled(h, a) && PublicationInv(h)
    ensures PublicationInv(HeartbeatHost(h, a))
  {
    HeartbeatStepKeepsSays(h, a);
    HeartbeatStepKeepsWrites(h, a);
    HeartbeatStepKeepsRequest(h, a);
  }

  /** Every step of every thread keeps what is promised of the published values and the stop events. */
  lemma StepKeepsPublication(c: L.Config, instances: set<Instance>, dead: set<L.Process>, f: Files, i: Instance,
                             h: Host, a: Action)
    requires Inv(h) && Enabled(c, instances, dead, f, i, h, a) && PublicationInv(h)
    ensures PublicationInv(HostAfter(f, i, h, a))
  {
    match a
    case LockStep(l) => LockStepKeepsPublication(h, L.PcAfter(f.lock, i, h.lock, l));
    case StartStep(s) => StartStepKeepsPublication(f, h, s);
    case StopStep(id, s) => StopStepKeepsPublication(h, id, s);
    case ServerStep(s) => ServerStepKeepsPublication(h, s);
    case ClientStep(s) => ClientStepKeepsPublication(h, s);
    case HeartbeatStep(b) => HeartbeatStepKeepsPublication(h, b);
    case Call(id, reason) => NewCallKeepsPublication(h, id, reason, h.requested);
    case Ask(id) => NewCallKeepsPublication(h, id, CLIENT_REQUEST, true);
  }
}

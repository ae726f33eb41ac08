/**
 The single-instance lock of the managed service, as a protocol over small steps.

 Every host instance tries to create one lock file exclusively, and on failure reads the
 recorded owner, asks whether that process exists, unlinks a stale file and retries once.
 Creating, writing, reading, checking and unlinking are separate steps, any number of
 instances interleave, and a process may die between any two steps.
 */
module InstanceLock {
  import opened Counting

  type Instance = nat
  type Process = nat

  /** Which process an instance runs in, and the number the operating system gave that process. */
  datatype Config = Config(process: Instance -> Process, pid: Process -> int)

  /** The path on disk: `creator` is the instance whose open created it, `written` says that its
      payload is there.  A file that is not written reads as unreadable. */
  datatype LockFile = Absent | Present(creator: Instance, written: bool)

  /** Program counter of `acquire` followed by `release`.  The owner kept in `Checking` is the one
      just read; the one kept in `Unlinking` is only remembered for the proofs. */
  datatype Pc =
    | Idle
    | Opening(attempt: nat)
    | Reading(attempt: nat)
    | Checking(attempt: nat, owner: Instance)
    | Unlinking(owner: Instance)
    | Writing
    | Verifying
    | Held
    | Comparing
    | Removing
    | Released
    | Refused

  datatype Action =
    | Begin
    | OpenCreates
    | OpenFindsFile
    | ReadUnreadable
    | ReadOwner
    | CheckSaysAlive
    | CheckSaysDead
    | UnlinkStale
    | WritePayload
    | WriteFails
    | VerifyPasses
    | VerifyUnsafe
    | VerifyMissing
    | BeginRelease
    | CompareOwner
    | UnlinkOwn

  datatype State = State(file: LockFile, pcs: map<Instance, Pc>, dead: set<Process>)

  datatype Event = Act(who: Instance, action: Action) | Crash(process: Process)

  ghost predicate Live(c: Config, dead: set<Process>, i: Instance) {
    c.process(i) !in dead
  }

  /** `_process_exists` may answer no: the number is not positive, or no live process of this
      system carries it.  It may always answer yes, because a foreign process can have the number. */
  ghost predicate MayReportDead(c: Config, instances: set<Instance>, dead: set<Process>, owner: Instance) {
    var pid := c.pid(c.process(owner));
    pid <= 0 || forall j :: j in instances && Live(c, dead, j) ==> c.pid(c.process(j)) != pid
  }

  ghost predicate Enabled(c: Config, instances: set<Instance>, dead: set<Process>, file: LockFile, i: Instance, pc: Pc,
                          a: Action)
  {
    match a
    case Begin => pc.Idle?
    case OpenCreates => pc.Opening? && file.Absent?
    case OpenFindsFile => pc.Opening? && file.Present?
    case ReadUnreadable => pc.Reading? && (file.Absent? || !file.written)
    case ReadOwner => pc.Reading? && file.Present? && file.written && file.creator in instances
    case CheckSaysAlive => pc.Checking?
    case CheckSaysDead => pc.Checking? && MayReportDead(c, instances, dead, pc.owner)
    case UnlinkStale => pc.Unlinking?
    case WritePayload => pc.Writing?
    case WriteFails => pc.Writing?
    case VerifyPasses => pc.Verifying?
    case VerifyUnsafe => pc.Verifying? && file.Present?
    case VerifyMissing => pc.Verifying? && file.Absent?
    case BeginRelease => pc.Held?
    case CompareOwner => pc.Comparing?
    case UnlinkOwn => pc.Removing?
  }

  /** The path after the step.  A payload goes to the file the instance itself created: when that
      file has been unlinked meanwhile, the bytes reach an unnamed inode and the path keeps its content. */
  ghost function FileAfter(file: LockFile, i: Instance, a: Action): LockFile {
    match a
    case OpenCreates => Present(i, false)
    case WritePayload => if file.Present? && file.creator == i then Present(i, true) else file
    case UnlinkStale => Absent
    case VerifyUnsafe => Absent
    case UnlinkOwn => Absent
    case _ => file
  }

  ghost function PcAfter(file: LockFile, i: Instance, pc: Pc, a: Action): Pc {
    match a
    case Begin => Opening(0)
    case OpenCreates => Writing
    case OpenFindsFile => if pc.Opening? then Reading(pc.attempt) else pc
    case ReadUnreadable => Refused
    case ReadOwner => if pc.Reading? && file.Present? then Checking(pc.attempt, file.creator) else pc
    case CheckSaysAlive => Refused
    case CheckSaysDead => if pc.Checking? && pc.attempt == 0 then Unlinking(pc.owner) else Refused
    case UnlinkStale => Opening(1)
    case WritePayload => Verifying
    case WriteFails => Refused
    case VerifyPasses => Held
    case VerifyUnsafe => Refused
    case VerifyMissing => Refused
    case BeginRelease => Comparing
    case CompareOwner => if file == Present(i, true) then Removing else Released
    case UnlinkOwn => Released
  }

  ghost predicate Init(s: State) {
    s.file.Absent? && s.dead == {} && forall i :: i in s.pcs ==> s.pcs[i].Idle?
  }

  ghost predicate Possible(c: Config, s: State, e: Event) {
    e.Act? ==>
      && e.who in s.pcs
      && Live(c, s.dead, e.who)
      && Enabled(c, s.pcs.Keys, s.dead, s.file, e.who, s.pcs[e.who], e.action)
  }

  ghost function After(s: State, e: Event): State
    requires e.Act? ==> e.who in s.pcs
  {
    match e
    case Crash(p) => s.(dead := s.dead + {p})
    case Act(i, a) => s.(file := FileAfter(s.file, i, a), pcs := s.pcs[i := PcAfter(s.file, i, s.pcs[i], a)])
  }

  ghost predicate Next(c: Config, s: State, e: Event, s': State) {
    Possible(c, s, e) && s' == After(s, e)
  }

  ghost predicate IsRun(c: Config, states: seq<State>, events: seq<Event>) {
    && |states| == |events| + 1
    && Init(states[0])
    && forall k :: 0 <= k < |events| ==> Next(c, states[k], events[k], states[k + 1])
  }

  /** Every process number is positive, as the operating system guarantees. */
  ghost predicate PositivePids(c: Config) {
    forall p :: c.pid(p) > 0
  }

  // ----- what the lock promises

  /** The instance has created the lock file and has not given it up. */
  predicate Claims(pc: Pc) {
    pc.Writing? || pc.Verifying? || pc.Held? || pc.Comparing? || pc.Removing?
  }

  /** `owned` is set. */
  predicate Holds(pc: Pc) {
    pc.Held? || pc.Comparing? || pc.Removing?
  }

  ghost predicate LiveClaim(c: Config, s: State, i: Instance) {
    i in s.pcs && Live(c, s.dead, i) && Claims(s.pcs[i])
  }

  /** The file on disk names every live claimant, with its payload once that is written. */
  ghost predicate FileNamesClaimant(c: Config, s: State) {
    forall i :: LiveClaim(c, s, i) ==> s.file == Present(i, !s.pcs[i].Writing?)
  }

  /** The step is a stale-owner recovery that unlinks the file of a live claimant. */
  ghost predicate RemovesLiveClaim(c: Config, s: State, e: Event) {
    e.Act? && e.action.UnlinkStale? && s.file.Present? && LiveClaim(c, s, s.file.creator)
  }

  ghost predicate MutualExclusion(c: Config, s: State) {
    forall i, j :: LiveClaim(c, s, i) && LiveClaim(c, s, j) ==> i == j
  }

  lemma StepKeepsFileNamesClaimant(c: Config, s: State, e: Event, s': State)
    requires Next(c, s, e, s') && FileNamesClaimant(c, s)
    ensures FileNamesClaimant(c, s') <==> !RemovesLiveClaim(c, s, e)
  {
    if RemovesLiveClaim(c, s, e) {
      assert LiveClaim(c, s', s.file.creator);
    } else {
      assert e.Act? && (e.action.VerifyUnsafe? || e.action.UnlinkOwn?) ==> LiveClaim(c, s, e.who);
      forall i | LiveClaim(c, s', i) ensures s'.file == Present(i, !s'.pcs[i].Writing?) {
        if e.Act? && e.who != i {
          assert LiveClaim(c, s, i);
        } else {
          assert LiveClaim(c, s, i) || (e.Act? && e.action.OpenCreates?);
        }
      }
    }
  }

  /**
   Exact safety of the lock over whole runs: the file names its live claimants in every state of
   the run if and only if no recovery in the run unlinks the file of a live claimant.
   */
  lemma SafetyIffCleanRecovery(c: Config, states: seq<State>, events: seq<Event>)
    requires IsRun(c, states, events)
    ensures (forall k :: 0 <= k < |states| ==> FileNamesClaimant(c, states[k]))
       <==> (forall k :: 0 <= k < |events| ==> !RemovesLiveClaim(c, states[k], events[k]))
  {
    if forall k :: 0 <= k < |states| ==> FileNamesClaimant(c, states[k]) {
      forall k | 0 <= k < |events| ensures !RemovesLiveClaim(c, states[k], events[k]) {
        StepKeepsFileNamesClaimant(c, states[k], events[k], states[k + 1]);
      }
    }
    if forall k :: 0 <= k < |events| ==> !RemovesLiveClaim(c, states[k], events[k]) {
      forall k | 0 <= k < |states| ensures FileNamesClaimant(c, states[k]) {
        CleanPrefixIsSafe(c, states, events, k);
      }
    }
  }

  lemma {:induction false} CleanPrefixIsSafe(c: Config, states: seq<State>, events: seq<Event>, k: nat)
    requires IsRun(c, states, events) && k < |states|
    requires forall n :: 0 <= n < |events| ==> !RemovesLiveClaim(c, states[n], events[n])
    ensures FileNamesClaimant(c, states[k])
  {
    if k > 0 {
      CleanPrefixIsSafe(c, states, events, k - 1);
      StepKeepsFileNamesClaimant(c, states[k - 1], events[k - 1], states[k]);
    }
  }

  /**
   What a clean run gives: at most one live claimant, the file names a live holder, and a release
   that unlinks removes exactly the releasing instance's own lock.
   */
  lemma CleanRunExcludes(c: Config, states: seq<State>, events: seq<Event>, k: nat)
    requires IsRun(c, states, events) && k < |states|
    requires forall n :: 0 <= n < |events| ==> !RemovesLiveClaim(c, states[n], events[n])
    ensures MutualExclusion(c, states[k])
    ensures forall i :: LiveClaim(c, states[k], i) && Holds(states[k].pcs[i]) ==> states[k].file == Present(i, true)
    ensures k < |events| && events[k].Act? && events[k].action.UnlinkOwn? ==>
              states[k].file == Present(events[k].who, true)
  {
    CleanPrefixIsSafe(c, states, events, k);
    if k < |events| && events[k].Act? && events[k].action.UnlinkOwn? {
      assert Next(c, states[k], events[k], states[k + 1]);
      assert LiveClaim(c, states[k], events[k].who);
    }
  }

  /** Right after a recovery removed a live claim, the recoverer can create the file and there are two live
      claimants. */
  lemma RemovalBreaksExclusion(c: Config, s: State, e: Event, s': State)
    requires Next(c, s, e, s') && RemovesLiveClaim(c, s, e)
    ensures
      var create := Act(e.who, OpenCreates);
      Possible(c, s', create) && !MutualExclusion(c, After(s', create))
  {
    var t := After(s', Act(e.who, OpenCreates));
    assert LiveClaim(c, t, e.who) && LiveClaim(c, t, s.file.creator);
  }

  /** From a state whose file names its live claimants every single step keeps exclusion. */
  lemma NamedClaimantStaysAlone(c: Config, s: State, e: Event, s': State)
    requires Next(c, s, e, s') && FileNamesClaimant(c, s)
    ensures MutualExclusion(c, s')
  {
    StepKeepsFileNamesClaimant(c, s, e, s');
    if RemovesLiveClaim(c, s, e) {
      forall i | LiveClaim(c, s', i) ensures i == s.file.creator { assert LiveClaim(c, s, i); }
    }
  }

  /** Exclusion holds in every state of the run and in every state that one more step can lead to from any of them. */
  ghost predicate ExclusionEverywhere(c: Config, states: seq<State>) {
    forall k, e, t :: 0 <= k < |states| && Next(c, states[k], e, t) ==>
        MutualExclusion(c, states[k]) && MutualExclusion(c, t)
  }

  /**
   Exact exclusion: a run and all its one-step continuations keep mutual exclusion if and only if no
   recovery in the run unlinks the file of a live claimant.
   */
  lemma ExclusionIffCleanRecovery(c: Config, states: seq<State>, events: seq<Event>)
    requires IsRun(c, states, events)
    ensures ExclusionEverywhere(c, states) <==>
            forall k :: 0 <= k < |events| ==> !RemovesLiveClaim(c, states[k], events[k])
  {
    if ExclusionEverywhere(c, states) {
      forall k | 0 <= k < |events| ensures !RemovesLiveClaim(c, states[k], events[k]) {
        assert Next(c, states[k], events[k], states[k + 1]);
        if RemovesLiveClaim(c, states[k], events[k]) {
          RemovalBreaksExclusion(c, states[k], events[k], states[k + 1]);
          var create := Act(events[k].who, OpenCreates);
          assert Next(c, states[k + 1], create, After(states[k + 1], create));
        }
      }
    }
    if forall k :: 0 <= k < |events| ==> !RemovesLiveClaim(c, states[k], events[k]) {
      forall k, e, t | 0 <= k < |states| && Next(c, states[k], e, t)
        ensures MutualExclusion(c, states[k]) && MutualExclusion(c, t)
      {
        CleanPrefixIsSafe(c, states, events, k);
        CleanRunExcludes(c, states, events, k);
        NamedClaimantStaysAlone(c, states[k], e, t);
      }
    }
  }

  // ----- a scheduling rule that makes every recovery clean

  /** Between reading an owner on the first attempt and unlinking. */
  predicate InRecoveryWindow(pc: Pc) {
    (pc.Checking? && pc.attempt == 0) || pc.Unlinking?
  }

  ghost predicate LiveWindow(c: Config, s: State, i: Instance) {
    i in s.pcs && Live(c, s.dead, i) && InRecoveryWindow(s.pcs[i])
  }

  /** No step takes the lock file away while another live instance is inside its recovery window. */
  ghost predicate SerialRemoval(c: Config, s: State, e: Event) {
    e.Act? && s.file.Present? && FileAfter(s.file, e.who, e.action).Absent? ==>
      forall i :: LiveWindow(c, s, i) ==> i == e.who
  }

  /** Inside the window the file is still the one that was read, and at the unlink its owner is dead. */
  ghost predicate WindowSeesFile(c: Config, s: State) {
    forall i :: LiveWindow(c, s, i) ==>
      && s.file == Present(s.pcs[i].owner, true)
      && s.pcs[i].owner in s.pcs
      && (s.pcs[i].Unlinking? ==> !Live(c, s.dead, s.pcs[i].owner))
  }

  lemma StepKeepsWindow(c: Config, s: State, e: Event, s': State)
    requires PositivePids(c) && Next(c, s, e, s')
    requires WindowSeesFile(c, s) && SerialRemoval(c, s, e)
    ensures WindowSeesFile(c, s') && !RemovesLiveClaim(c, s, e)
  {
    forall i | LiveWindow(c, s', i)
      ensures s'.file == Present(s'.pcs[i].owner, true)
      ensures s'.pcs[i].owner in s'.pcs
      ensures s'.pcs[i].Unlinking? ==> !Live(c, s'.dead, s'.pcs[i].owner)
    {
      if !(e.Act? && e.who == i) {
        assert LiveWindow(c, s, i);
      } else {
        assert e.action.ReadOwner? || LiveWindow(c, s, i);
      }
    }
    if e.Act? && e.action.UnlinkStale? {
      assert LiveWindow(c, s, e.who);
    }
  }

  /** Under serial removal every recovery is clean, hence the lock is safe over the whole run. */
  lemma SerialRemovalIsSafe(c: Config, states: seq<State>, events: seq<Event>)
    requires PositivePids(c) && IsRun(c, states, events)
    requires forall k :: 0 <= k < |events| ==> SerialRemoval(c, states[k], events[k])
    ensures forall k :: 0 <= k < |events| ==> !RemovesLiveClaim(c, states[k], events[k])
    ensures forall k :: 0 <= k < |states| ==> FileNamesClaimant(c, states[k]) && MutualExclusion(c, states[k])
  {
    forall k | 0 <= k < |events| ensures !RemovesLiveClaim(c, states[k], events[k]) {
      WindowsAlong(c, states, events, k);
      StepKeepsWindow(c, states[k], events[k], states[k + 1]);
    }
    forall k | 0 <= k < |states| ensures FileNamesClaimant(c, states[k]) && MutualExclusion(c, states[k]) {
      CleanPrefixIsSafe(c, states, events, k);
      CleanRunExcludes(c, states, events, k);
    }
  }

  lemma {:induction false} WindowsAlong(c: Config, states: seq<State>, events: seq<Event>, k: nat)
    requires PositivePids(c) && IsRun(c, states, events) && k < |states|
    requires forall n :: 0 <= n < |events| ==> SerialRemoval(c, states[n], events[n])
    ensures WindowSeesFile(c, states[k])
  {
    if k > 0 {
      WindowsAlong(c, states, events, k - 1);
      StepKeepsWindow(c, states[k - 1], events[k - 1], states[k]);
    }
  }

  // ----- when one contender at a time is enough

  /** On a first attempt only the lock of an owner that is already dead is read. */
  ghost predicate ReadsDeadOwner(c: Config, s: State, e: Event) {
    e.Act? && e.action.ReadOwner? && e.who in s.pcs && s.pcs[e.who] == Reading(0) && s.file.Present? ==>
      !Live(c, s.dead, s.file.creator)
  }

  ghost predicate AtMostOneWindow(c: Config, s: State) {
    forall i, j :: LiveWindow(c, s, i) && LiveWindow(c, s, j) ==> i == j
  }

  /** Inside the window the file is still the one that was read, and its owner is dead. */
  ghost predicate WindowSeesDeadOwner(c: Config, s: State) {
    forall i :: LiveWindow(c, s, i) ==> s.file == Present(s.pcs[i].owner, true) && !Live(c, s.dead, s.pcs[i].owner)
  }

  lemma StepKeepsDeadOwner(c: Config, s: State, e: Event, s': State)
    requires Next(c, s, e, s') && FileNamesClaimant(c, s) && WindowSeesDeadOwner(c, s)
    requires AtMostOneWindow(c, s) && ReadsDeadOwner(c, s, e)
    ensures !RemovesLiveClaim(c, s, e) && FileNamesClaimant(c, s') && WindowSeesDeadOwner(c, s')
  {
    if e.Act? && e.action.UnlinkStale? { assert LiveWindow(c, s, e.who); }
    StepKeepsFileNamesClaimant(c, s, e, s');
    assert e.Act? && (e.action.VerifyUnsafe? || e.action.UnlinkOwn?) ==> LiveClaim(c, s, e.who);
    forall i | LiveWindow(c, s', i)
      ensures s'.file == Present(s'.pcs[i].owner, true) && !Live(c, s'.dead, s'.pcs[i].owner)
    {
      if e.Act? && e.who == i {
        assert e.action.ReadOwner? || LiveWindow(c, s, i);
      } else {
        assert LiveWindow(c, s, i);
      }
    }
  }

  lemma {:induction false} DeadOwnerAlong(c: Config, states: seq<State>, events: seq<Event>, k: nat)
    requires IsRun(c, states, events) && k < |states|
    requires forall n :: 0 <= n < |states| ==> AtMostOneWindow(c, states[n])
    requires forall n :: 0 <= n < |events| ==> ReadsDeadOwner(c, states[n], events[n])
    ensures FileNamesClaimant(c, states[k]) && WindowSeesDeadOwner(c, states[k])
  {
    if k > 0 {
      DeadOwnerAlong(c, states, events, k - 1);
      StepKeepsDeadOwner(c, states[k - 1], events[k - 1], states[k]);
    }
  }

  /**
   At most one contender between its owner read and its unlink is enough when every owner read on a
   first attempt is already dead: then every recovery is clean and exclusion holds in every state.
   */
  lemma OneRecovererOfDeadOwnersIsSafe(c: Config, states: seq<State>, events: seq<Event>)
    requires IsRun(c, states, events)
    requires forall k :: 0 <= k < |states| ==> AtMostOneWindow(c, states[k])
    requires forall k :: 0 <= k < |events| ==> ReadsDeadOwner(c, states[k], events[k])
    ensures forall k :: 0 <= k < |events| ==> !RemovesLiveClaim(c, states[k], events[k])
    ensures forall k :: 0 <= k < |states| ==> FileNamesClaimant(c, states[k]) && MutualExclusion(c, states[k])
  {
    forall k | 0 <= k < |events| ensures !RemovesLiveClaim(c, states[k], events[k]) {
      DeadOwnerAlong(c, states, events, k);
      StepKeepsDeadOwner(c, states[k], events[k], states[k + 1]);
    }
    forall k | 0 <= k < |states| ensures FileNamesClaimant(c, states[k]) && MutualExclusion(c, states[k]) {
      DeadOwnerAlong(c, states, events, k);
      CleanRunExcludes(c, states, events, k);
    }
  }

  // ----- runs that show the rule is needed

  /** Instance `n` runs in process `n`, which carries the number `n + 1`. */
  ghost function OneProcessEach(): Config {
    Config((i: Instance) => i, (p: Process) => p + 1)
  }

  ghost predicate TwoLiveHolders(c: Config, s: State) {
    exists i, j :: i != j && LiveClaim(c, s, i) && LiveClaim(c, s, j) && Holds(s.pcs[i]) && Holds(s.pcs[j])
  }

  /** A predecessor 0 and contenders 1 and 2. */
  ghost function Three(file: LockFile, pc0: Pc, pc1: Pc, pc2: Pc, dead: set<Process>): State {
    State(file, map[0 := pc0, 1 := pc1, 2 := pc2], dead)
  }

  /** A run of the three instances that ends in `s` and in which only instances of `ws` enter a recovery window. */
  ghost predicate RunTo(states: seq<State>, events: seq<Event>, s: State, ws: set<Instance>) {
    && IsRun(OneProcessEach(), states, events)
    && states[|events|] == s
    && forall k, i :: 0 <= k < |states| && LiveWindow(OneProcessEach(), states[k], i) ==> i in ws
  }

  lemma Advance(states: seq<State>, events: seq<Event>, s: State, ws: set<Instance>, e: Event, s': State)
    returns (states': seq<State>, events': seq<Event>)
    requires RunTo(states, events, s, ws) && Next(OneProcessEach(), s, e, s')
    requires forall i :: LiveWindow(OneProcessEach(), s', i) ==> i in ws
    ensures RunTo(states', events', s', ws) && states <= states'
  {
    states', events' := states + [s'], events + [e];
    var c := OneProcessEach();
    forall k | 0 <= k < |events'| ensures Next(c, states'[k], events'[k], states'[k + 1]) {
      assert k < |events| ==> Next(c, states[k], events[k], states[k + 1]);
    }
  }

  /** Creating, writing and verifying the lock, uninterrupted. */
  lemma AcquireAbsent(states: seq<State>, events: seq<Event>, s: State, ws: set<Instance>, i: Instance)
    returns (states': seq<State>, events': seq<Event>)
    requires RunTo(states, events, s, ws) && i in s.pcs && s.pcs[i].Opening? && s.file.Absent?
    requires Live(OneProcessEach(), s.dead, i)
    ensures RunTo(states', events', s.(file := Present(i, true), pcs := s.pcs[i := Held]), ws) && states <= states'
  {
    var s1 := s.(file := Present(i, false), pcs := s.pcs[i := Writing]);
    var s2 := s.(file := Present(i, true), pcs := s.pcs[i := Verifying]);
    var s3 := s.(file := Present(i, true), pcs := s.pcs[i := Held]);
    assert forall j :: LiveWindow(OneProcessEach(), s, j) ==> j in ws by { assert states[|events|] == s; }
    WindowsCarry(s, s1, ws, i);
    WindowsCarry(s, s2, ws, i);
    WindowsCarry(s, s3, ws, i);
    assert s1.pcs[i := Verifying] == s2.pcs && s2.pcs[i := Held] == s3.pcs;
    states', events' := Advance(states, events, s, ws, Act(i, OpenCreates), s1);
    states', events' := Advance(states', events', s1, ws, Act(i, WritePayload), s2);
    states', events' := Advance(states', events', s2, ws, Act(i, VerifyPasses), s3);
  }

  /** Changing the counter of one instance outside the window, or of one in `ws`, opens no foreign window. */
  lemma WindowsCarry(s: State, s': State, ws: set<Instance>, i: Instance)
    requires forall j :: LiveWindow(OneProcessEach(), s, j) ==> j in ws
    requires s.dead <= s'.dead && i in s.pcs && s'.pcs.Keys == s.pcs.Keys && s'.pcs == s.pcs[i := s'.pcs[i]]
    requires i in ws || !InRecoveryWindow(s'.pcs[i])
    ensures forall j :: LiveWindow(OneProcessEach(), s', j) ==> j in ws
  {
    forall j | LiveWindow(OneProcessEach(), s', j) ensures j in ws {
      assert j != i ==> LiveWindow(OneProcessEach(), s, j);
    }
  }

  /** Finding the file and reading its owner, uninterrupted. */
  lemma ReadOwnerOf(states: seq<State>, events: seq<Event>, s: State, ws: set<Instance>, i: Instance)
    returns (states': seq<State>, events': seq<Event>)
    requires RunTo(states, events, s, ws) && i in s.pcs && i in ws && s.pcs[i].Idle?
    requires Live(OneProcessEach(), s.dead, i)
    requires s.file.Present? && s.file.written && s.file.creator in s.pcs
    ensures RunTo(states', events', s.(pcs := s.pcs[i := Checking(0, s.file.creator)]), ws)
  {
    var s1 := s.(pcs := s.pcs[i := Opening(0)]);
    var s2 := s.(pcs := s.pcs[i := Reading(0)]);
    var s3 := s.(pcs := s.pcs[i := Checking(0, s.file.creator)]);
    assert forall j :: LiveWindow(OneProcessEach(), s, j) ==> j in ws by { assert states[|events|] == s; }
    WindowsCarry(s, s1, ws, i);
    WindowsCarry(s, s2, ws, i);
    WindowsCarry(s, s3, ws, i);
    assert s1.pcs[i := Reading(0)] == s2.pcs && s2.pcs[i := Checking(0, s.file.creator)] == s3.pcs;
    states', events' := Advance(states, events, s, ws, Act(i, Begin), s1);
    states', events' := Advance(states', events', s1, ws, Act(i, OpenFindsFile), s2);
    states', events' := Advance(states', events', s2, ws, Act(i, ReadOwner), s3);
  }

  /** Comparing and unlinking the own lock, uninterrupted. */
  lemma ReleaseHeld(states: seq<State>, events: seq<Event>, s: State, ws: set<Instance>, i: Instance)
    returns (states': seq<State>, events': seq<Event>)
    requires RunTo(states, events, s, ws) && i in s.pcs && s.pcs[i].Held? && s.file == Present(i, true)
    requires Live(OneProcessEach(), s.dead, i)
    ensures RunTo(states', events', s.(file := Absent, pcs := s.pcs[i := Released]), ws)
  {
    var s1 := s.(pcs := s.pcs[i := Comparing]);
    var s2 := s.(pcs := s.pcs[i := Removing]);
    var s3 := s.(file := Absent, pcs := s.pcs[i := Released]);
    assert forall j :: LiveWindow(OneProcessEach(), s, j) ==> j in ws by { assert states[|events|] == s; }
    WindowsCarry(s, s1, ws, i);
    WindowsCarry(s, s2, ws, i);
    WindowsCarry(s, s3, ws, i);
    assert s1.pcs[i := Removing] == s2.pcs && s2.pcs[i := Released] == s3.pcs;
    states', events' := Advance(states, events, s, ws, Act(i, BeginRelease), s1);
    states', events' := Advance(states', events', s1, ws, Act(i, CompareOwner), s2);
    states', events' := Advance(states', events', s2, ws, Act(i, UnlinkOwn), s3);
  }

  /** The predecessor acquires the lock, alone. */
  lemma PredecessorAcquires() returns (states: seq<State>, events: seq<Event>)
    ensures RunTo(states, events, Three(Present(0, true), Held, Idle, Idle, {}), {})
  {
    var s0 := Three(Absent, Idle, Idle, Idle, {});
    var s1 := Three(Absent, Opening(0), Idle, Idle, {});
    states, events := [s0], [];
    assert RunTo(states, events, s0, {});
    states, events := Advance(states, events, s0, {}, Act(0, Begin), s1);
    states, events := AcquireAbsent(states, events, s1, {}, 0);
    assert s1.(file := Present(0, true), pcs := s1.pcs[0 := Held]) == Three(Present(0, true), Held, Idle, Idle, {});
  }

  /** The predecessor dies holding the lock; both contenders read it as owner. */
  lemma BothReadDeadOwner() returns (states: seq<State>, events: seq<Event>)
    ensures RunTo(states, events, Three(Present(0, true), Held, Checking(0, 0), Checking(0, 0), {0}), {1, 2})
  {
    var stale := Present(0, true);
    states, events := PredecessorAcquires();
    var s1 := Three(stale, Held, Idle, Idle, {0});
    states, events := Advance(states, events, Three(stale, Held, Idle, Idle, {}), {1, 2}, Crash(0), s1);
    states, events := ReadOwnerOf(states, events, s1, {1, 2}, 1);
    var s2 := Three(stale, Held, Checking(0, 0), Idle, {0});
    assert s2.pcs == s1.pcs[1 := Checking(0, 0)];
    states, events := ReadOwnerOf(states, events, s2, {1, 2}, 2);
    assert Three(stale, Held, Checking(0, 0), Checking(0, 0), {0}).pcs == s2.pcs[2 := Checking(0, 0)];
  }

  /** Predecessor 0 has died with its lock file in place, and both contenders have read it as the owner on their first
      attempt. */
  ghost predicate BothHaveRead(s: State) {
    s == Three(Present(0, true), Held, Checking(0, 0), Checking(0, 0), {0})
  }

  /** Both judge it dead. */
  lemma BothJudgeDead() returns (states: seq<State>, events: seq<Event>)
    ensures RunTo(states, events, Three(Present(0, true), Held, Unlinking(0), Unlinking(0), {0}), {1, 2})
    ensures exists k :: 0 <= k < |states| && BothHaveRead(states[k])
  {
    var stale := Present(0, true);
    states, events := BothReadDeadOwner();
    ghost var n := |events|;
    assert BothHaveRead(states[n]);
    var s3 := Three(stale, Held, Checking(0, 0), Checking(0, 0), {0});
    var s4 := Three(stale, Held, Unlinking(0), Checking(0, 0), {0});
    states, events := Advance(states, events, s3, {1, 2}, Act(1, CheckSaysDead), s4);
    var s5 := Three(stale, Held, Unlinking(0), Unlinking(0), {0});
    states, events := Advance(states, events, s4, {1, 2}, Act(2, CheckSaysDead), s5);
    assert BothHaveRead(states[n]);
  }

  /** Contender 2 unlinks and acquires while contender 1 is about to unlink. */
  lemma SecondRecovererAcquires() returns (states: seq<State>, events: seq<Event>)
    ensures RunTo(states, events, Three(Present(2, true), Held, Unlinking(0), Held, {0}), {1, 2})
    ensures exists k :: 0 <= k < |states| && BothHaveRead(states[k])
  {
    states, events := BothJudgeDead();
    var n :| 0 <= n < |states| && BothHaveRead(states[n]);
    var s5 := Three(Present(0, true), Held, Unlinking(0), Unlinking(0), {0});
    var s6 := Three(Absent, Held, Unlinking(0), Opening(1), {0});
    states, events := Advance(states, events, s5, {1, 2}, Act(2, UnlinkStale), s6);
    states, events := AcquireAbsent(states, events, s6, {1, 2}, 2);
    assert Three(Present(2, true), Held, Unlinking(0), Held, {0}).pcs == s6.pcs[2 := Held];
    assert BothHaveRead(states[n]);
  }

  /** From a contender about to unlink the lock of a live holder 2, both end up holding. */
  lemma UnlinkThenAcquire(states: seq<State>, events: seq<Event>, pc0: Pc, ws: set<Instance>)
    returns (states': seq<State>, events': seq<Event>)
    requires RunTo(states, events, Three(Present(2, true), pc0, Unlinking(0), Held, {0}), ws)
    ensures IsRun(OneProcessEach(), states', events') && states <= states'
    ensures TwoLiveHolders(OneProcessEach(), states'[|events'|])
    ensures forall k, i :: 0 <= k < |states'| && LiveWindow(OneProcessEach(), states'[k], i) ==> i in ws
  {
    var s7 := Three(Present(2, true), pc0, Unlinking(0), Held, {0});
    var s8 := Three(Absent, pc0, Opening(1), Held, {0});
    states', events' := Advance(states, events, s7, ws, Act(1, UnlinkStale), s8);
    states', events' := AcquireAbsent(states', events', s8, ws, 1);
    assert LiveClaim(OneProcessEach(), states'[|events'|], 1) && LiveClaim(OneProcessEach(), states'[|events'|], 2);
  }

  /** Two contenders that both read the dead owner before either unlinks end up holding the lock together. */
  lemma TwoRecoverersBreakExclusion() returns (states: seq<State>, events: seq<Event>)
    ensures IsRun(OneProcessEach(), states, events)
    ensures exists k :: 0 <= k < |states| && BothHaveRead(states[k])
    ensures TwoLiveHolders(OneProcessEach(), states[|events|])
  {
    states, events := SecondRecovererAcquires();
    var n :| 0 <= n < |states| && BothHaveRead(states[n]);
    states, events := UnlinkThenAcquire(states, events, Held, {1, 2});
    assert BothHaveRead(states[n]);
  }

  /** Contender 1 reads the live owner, which then releases cleanly. */
  lemma OwnerReleasesAfterRead() returns (states: seq<State>, events: seq<Event>)
    ensures RunTo(states, events, Three(Absent, Released, Checking(0, 0), Idle, {}), {1})
  {
    var own := Present(0, true);
    states, events := PredecessorAcquires();
    var s0 := Three(own, Held, Idle, Idle, {});
    assert RunTo(states, events, s0, {1});
    states, events := ReadOwnerOf(states, events, s0, {1}, 1);
    var s1 := Three(own, Held, Checking(0, 0), Idle, {});
    assert s1.pcs == s0.pcs[1 := Checking(0, 0)];
    states, events := ReleaseHeld(states, events, s1, {1}, 0);
    assert Three(Absent, Released, Checking(0, 0), Idle, {}).pcs == s1.pcs[0 := Released];
  }

  /** The old owner exits and contender 2 acquires; contender 1 now judges the old owner dead. */
  lemma SuccessorAcquires() returns (states: seq<State>, events: seq<Event>)
    ensures RunTo(states, events, Three(Present(2, true), Released, Unlinking(0), Held, {0}), {1})
  {
    states, events := OwnerReleasesAfterRead();
    var s4 := Three(Absent, Released, Checking(0, 0), Idle, {});
    var s5 := Three(Absent, Released, Checking(0, 0), Idle, {0});
    states, events := Advance(states, events, s4, {1}, Crash(0), s5);
    var s6 := Three(Absent, Released, Checking(0, 0), Opening(0), {0});
    states, events := Advance(states, events, s5, {1}, Act(2, Begin), s6);
    states, events := AcquireAbsent(states, events, s6, {1}, 2);
    var s7 := Three(Present(2, true), Released, Checking(0, 0), Held, {0});
    assert s7.pcs == s6.pcs[2 := Held];
    var s8 := Three(Present(2, true), Released, Unlinking(0), Held, {0});
    states, events := Advance(states, events, s7, {1}, Act(1, CheckSaysDead), s8);
  }

  lemma OnlyOneContender(states: seq<State>, w: Instance, ws: set<Instance>)
    requires ws == {w}
    requires forall k, i :: 0 <= k < |states| && LiveWindow(OneProcessEach(), states[k], i) ==> i in ws
    ensures forall k :: 0 <= k < |states| ==> AtMostOneWindow(OneProcessEach(), states[k])
  {
    var c := OneProcessEach();
    forall k, i, j | 0 <= k < |states| && LiveWindow(c, states[k], i) && LiveWindow(c, states[k], j)
      ensures i == j
    {
      assert i in ws && j in ws;
    }
  }

  /**
   One contender is enough: it reads a live owner, the owner releases and exits, a successor
   acquires, and only then does the contender ask about the old owner and unlink the successor's
   file.  Never more than one instance is inside a recovery window.
   */
  lemma OneRecovererBreaksExclusion() returns (states: seq<State>, events: seq<Event>)
    ensures IsRun(OneProcessEach(), states, events)
    ensures TwoLiveHolders(OneProcessEach(), states[|events|])
    ensures forall k :: 0 <= k < |states| ==> AtMostOneWindow(OneProcessEach(), states[k])
  {
    states, events := SuccessorAcquires();
    states, events := UnlinkThenAcquire(states, events, Released, {1});
    OnlyOneContender(states, 1, {1});
  }

  // ----- how an instance walks through the code

  /** The places an instance can go to from one place: a refusal comes only after the file was found there or could not
      be written or verified, a second attempt only after an unlink, and a release unlinks only its own file. */
  predicate Follows(file: LockFile, i: Instance, pc: Pc, pc': Pc) {
    match pc
    case Idle => pc' == Opening(0)
    case Opening(n) => pc' == if file.Absent? then Writing else Reading(n)
    case Reading(n) => pc' == if file.Present? && file.written then Checking(n, file.creator) else Refused
    case Checking(n, owner) => pc'.Refused? || (n == 0 && pc' == Unlinking(owner))
    case Unlinking(_) => pc' == Opening(1)
    case Writing => pc'.Verifying? || pc'.Refused?
    case Verifying => pc'.Held? || pc'.Refused?
    case Held => pc'.Comparing?
    case Comparing => pc' == if file == Present(i, true) then Removing else Released
    case Removing => pc'.Released?
    case Released => false
    case Refused => false
  }

  lemma StepFollowsCode(c: Config, s: State, i: Instance, a: Action)
    requires Possible(c, s, Act(i, a))
    ensures Follows(s.file, i, s.pcs[i], PcAfter(s.file, i, s.pcs[i], a))
  {
  }

  predicate Finished(pc: Pc) {
    pc.Held? || pc.Released? || pc.Refused?
  }

  /** A live instance inside `acquire` or `release` always has a step, whatever the others have done to the file. */
  lemma NeverStuck(c: Config, s: State, i: Instance) returns (a: Action)
    requires i in s.pcs && Live(c, s.dead, i) && !Finished(s.pcs[i])
    requires s.file.Present? ==> s.file.creator in s.pcs
    ensures Possible(c, s, Act(i, a))
  {
    match s.pcs[i]
    case Idle => a := Begin;
    case Opening(_) => a := if s.file.Absent? then OpenCreates else OpenFindsFile;
    case Reading(_) => a := if s.file.Present? && s.file.written then ReadOwner else ReadUnreadable;
    case Checking(_, _) => a := CheckSaysAlive;
    case Unlinking(_) => a := UnlinkStale;
    case Writing => a := WritePayload;
    case Verifying => a := VerifyPasses;
    case Comparing => a := CompareOwner;
    case Removing => a := UnlinkOwn;
  }

  /** The most steps an instance has left. */
  function StepsLeft(pc: Pc): nat {
    match pc
    case Idle => 11
    case Opening(n) => if n == 0 then 10 else 6
    case Reading(n) => if n == 0 then 9 else 5
    case Checking(n, _) => if n == 0 then 8 else 4
    case Unlinking(_) => 7
    case Writing => 5
    case Verifying => 4
    case Held => 3
    case Comparing => 2
    case Removing => 1
    case Released => 0
    case Refused => 0
  }

  /** How many of the events are steps of the instance. */
  function StepsOf(events: seq<Event>, i: Instance): nat {
    Count(events, (e: Event) => e.Act? && e.who == i)
  }

  /** Whatever the others do, an instance takes at most eleven steps in its life, acquiring and releasing together:
      nobody retries for ever. */
  lemma {:induction false} BoundedSteps(c: Config, states: seq<State>, events: seq<Event>, k: nat, i: Instance)
    requires IsRun(c, states, events) && k < |states| && i in states[0].pcs
    ensures i in states[k].pcs && StepsOf(events[..k], i) + StepsLeft(states[k].pcs[i]) <= 11
  {
    if k > 0 {
      BoundedSteps(c, states, events, k - 1, i);
      assert events[..k][..k - 1] == events[..k - 1] && Next(c, states[k - 1], events[k - 1], states[k]);
      if events[k - 1].Act? && events[k - 1].who == i {
        StepFollowsCode(c, states[k - 1], i, events[k - 1].action);
      }
    }
  }
}

/**
 The lock object itself, run without interference: `acquire` with its two attempts and `release`,
 over the path they share.  Each method also exhibits the protocol steps it performs, so that an
 uninterrupted call is a piece of a run of the protocol machine.
 */
module InstanceLockObject {
  import opened InstanceLock

  class LockPath {
    var file: LockFile

    constructor ()
      ensures file == Absent
    {
      file := Absent;
    }
  }

  datatype Outcome = Acquired | AlreadyRunning | Unsafe | Broken

  /** Performs the actions one after the other, each enabled when its turn comes. */
  ghost predicate Drives(c: Config, instances: set<Instance>, dead: set<Process>, i: Instance,
                         file: LockFile, pc: Pc, actions: seq<Action>, file': LockFile, pc': Pc)
    decreases |actions|
  {
    if actions == [] then file' == file && pc' == pc else
      && Enabled(c, instances, dead, file, i, pc, actions[0])
      && Drives(c, instances, dead, i, FileAfter(file, i, actions[0]), PcAfter(file, i, pc, actions[0]),
         actions[1..], file', pc')
  }

  lemma {:induction false} DrivesOneMore(c: Config, instances: set<Instance>, dead: set<Process>, i: Instance,
                                         file: LockFile, pc: Pc, actions: seq<Action>, mid: LockFile, midPc: Pc,
                                         a: Action)
    requires Drives(c, instances, dead, i, file, pc, actions, mid, midPc)
    requires Enabled(c, instances, dead, mid, i, midPc, a)
    ensures Drives(c, instances, dead, i, file, pc, actions + [a], FileAfter(mid, i, a), PcAfter(mid, i, midPc, a))
    decreases |actions|
  {
    if actions == [] {
      assert (actions + [a])[1..] == [];
    } else {
      DrivesOneMore(c, instances, dead, i, FileAfter(file, i, actions[0]), PcAfter(file, i, pc, actions[0]),
        actions[1..], mid, midPc, a);
      assert (actions + [a])[1..] == actions[1..] + [a];
    }
  }

  /** The file is free to take: missing, or written by an owner that no longer exists. */
  predicate Takeable(file: LockFile, ownerExists: bool) {
    file.Absent? || (file.written && !ownerExists)
  }

  class Guard {
    const me: Instance
    var owned: bool

    constructor (instance: Instance)
      ensures me == instance && !owned
    {
      me := instance;
      owned := false;
    }

    /**
     One uninterrupted call of `acquire`.  `ownerExists` is what the operating system answers about
     the recorded owner, `writable` whether the payload write succeeds and `private` whether the
     permission check passes.
     */
    method Acquire(path: LockPath, ghost c: Config, ghost instances: set<Instance>, ghost dead: set<Process>,
                   ownerExists: bool, writable: bool, private: bool)
      returns (outcome: Outcome, ghost actions: seq<Action>, ghost pc: Pc)
      requires !owned
      requires path.file.Present? ==> path.file.creator in instances
      requires path.file.Present? && !ownerExists ==> MayReportDead(c, instances, dead, path.file.creator)
      modifies this`owned, path
      ensures outcome == (if !Takeable(old(path.file), ownerExists) then AlreadyRunning
                          else if !writable then Broken else if !private then Unsafe else Acquired)
      ensures path.file == (match outcome
                            case Acquired => Present(me, true)
                            case AlreadyRunning => old(path.file)
                            case Unsafe => Absent
                            case Broken => Present(me, false))
      ensures owned <==> outcome.Acquired?
      ensures owned <==> pc.Held?
      ensures Drives(c, instances, dead, me, old(path.file), Idle, actions, path.file, pc)
    {
      ghost var start := path.file;
      actions, pc := [Begin], Opening(0);
      outcome := AlreadyRunning;
      var attempt := 0;
      while attempt < 2
        invariant 0 <= attempt <= 2 && !owned
        invariant attempt < 2 ==> pc == Opening(attempt)
        invariant attempt == 0 ==> path.file == start
        invariant attempt == 1 ==> start.Present? && Takeable(start, ownerExists) && path.file.Absent?
        invariant attempt < 2
        invariant Drives(c, instances, dead, me, start, Idle, actions, path.file, pc)
      {
        if path.file.Present? {
          DrivesOneMore(c, instances, dead, me, start, Idle, actions, path.file, pc, OpenFindsFile);
          actions, pc := actions + [OpenFindsFile], Reading(attempt);
          if !path.file.written {
            DrivesOneMore(c, instances, dead, me, start, Idle, actions, path.file, pc, ReadUnreadable);
            actions, pc := actions + [ReadUnreadable], Refused;
            return AlreadyRunning, actions, pc;
          }
          DrivesOneMore(c, instances, dead, me, start, Idle, actions, path.file, pc, ReadOwner);
          actions, pc := actions + [ReadOwner], Checking(attempt, path.file.creator);
          if ownerExists {
            DrivesOneMore(c, instances, dead, me, start, Idle, actions, path.file, pc, CheckSaysAlive);
            actions, pc := actions + [CheckSaysAlive], Refused;
            return AlreadyRunning, actions, pc;
          }
          DrivesOneMore(c, instances, dead, me, start, Idle, actions, path.file, pc, CheckSaysDead);
          actions, pc := actions + [CheckSaysDead], Unlinking(path.file.creator);
          DrivesOneMore(c, instances, dead, me, start, Idle, actions, path.file, pc, UnlinkStale);
          actions, pc := actions + [UnlinkStale], Opening(1);
          path.file := Absent;
          attempt := attempt + 1;
        } else {
          DrivesOneMore(c, instances, dead, me, start, Idle, actions, path.file, pc, OpenCreates);
          actions, pc := actions + [OpenCreates], Writing;
          path.file := Present(me, false);
          if !writable {
            DrivesOneMore(c, instances, dead, me, start, Idle, actions, path.file, pc, WriteFails);
            actions, pc := actions + [WriteFails], Refused;
            return Broken, actions, pc;
          }
          DrivesOneMore(c, instances, dead, me, start, Idle, actions, path.file, pc, WritePayload);
          actions, pc := actions + [WritePayload], Verifying;
          path.file := Present(me, true);
          if !private {
            DrivesOneMore(c, instances, dead, me, start, Idle, actions, path.file, pc, VerifyUnsafe);
            actions, pc := actions + [VerifyUnsafe], Refused;
            path.file := Absent;
            return Unsafe, actions, pc;
          }
          DrivesOneMore(c, instances, dead, me, start, Idle, actions, path.file, pc, VerifyPasses);
          actions, pc := actions + [VerifyPasses], Held;
          owned := true;
          return Acquired, actions, pc;
        }
      }
    }

    /** One uninterrupted call of `release`: only the own lock is removed, and nothing happens when nothing is owned. */
    method Release(path: LockPath)
      modifies this`owned, path
      ensures !owned
      ensures path.file == (if old(owned) && old(path.file) == Present(me, true) then Absent else old(path.file))
    {
      if !owned {
        return;
      }
      if path.file == Present(me, true) {
        path.file := Absent;
      }
      owned := false;
    }
  }
}

/**
 The deployment of a dashboard on the server: backups, a rollback trap, and the steps that change
 the shared files in order.
 */
module DashboardDeploy {
  import opened AsciiText
  import opened Options
  import opened MarkerBlocks
  import opened HostRecords
  import opened Dashboards

  /** The steps while the trap is set. */
  datatype Step =
    | Unpack | Link | WriteCompose | StartContainer
    | StageCaddy | ValidateCaddy | InstallCaddy | ReloadCaddy
    | StageDns | TestDns | InstallDns | RestartDns | Probe

  const STEPS: seq<Step> :=
    [Unpack, Link, WriteCompose, StartContainer, StageCaddy, ValidateCaddy, InstallCaddy, ReloadCaddy,
     StageDns, TestDns, InstallDns, RestartDns, Probe]

  /** How the outside world treats a step: whether its commands succeed, and what an interrupted write leaves in its
      file. */
  datatype Outcome = Outcome(ok: bool, debris: string)

  datatype Result = NotStarted | RolledBack | Deployed

  /** What is deployed: a dashboard with its block and host record, the release and the container file. */
  datatype Job = Job(dashboard: Dashboard, block: Target, host: Host, stamp: string, yaml: string)

  /** A file in the own directory of each dashboard that has it. */
  type Table = map<Dashboard, string>

  /** The configuration that a deployment makes of a file. */
  function NewCaddy(j: Job, file: string): Option<string> {
    Splice(j.block, Translate(file))
  }

  function NewDns(j: Job, file: string): Option<string> {
    UpdateText(Translate(file), j.host)
  }

  function Release(j: Job): string {
    "releases/" + j.stamp
  }

  /** The two versions of a table agree except at this key. */
  predicate SameBut(key: Dashboard, before: Table, after: Table) {
    before - {key} == after - {key}
  }

  lemma Restored(key: Dashboard, before: Table, after: Table)
    requires SameBut(key, before, after) && key in before
    ensures after[key := before[key]] == before
  {
    KeptElsewhere(key, before, after);
  }

  lemma KeptElsewhere(key: Dashboard, before: Table, after: Table)
    requires SameBut(key, before, after)
    ensures forall x :: x != key ==> (x in before <==> x in after) && (x in before ==> before[x] == after[x])
  {
    forall x | x != key ensures (x in before <==> x in after) && (x in before ==> before[x] == after[x]) {
      assert x in before <==> x in before - {key};
      assert x in after <==> x in after - {key};
      assert x in before ==> before[x] == (before - {key})[x] == (after - {key})[x];
    }
  }

  /** The shared files of the server, for each dashboard its container file and the link to its release, and the two
      candidate files. */
  class Server {
    var caddy: string
    var dns: string
    var compose: Table
    var current: Table
    var caddyCandidate: string
    var dnsCandidate: string

    constructor (caddy: string, dns: string)
      ensures this.caddy == caddy && this.dns == dns && compose == map[] && current == map[]
    {
      this.caddy, this.dns, compose, current := caddy, dns, map[], map[];
      caddyCandidate, dnsCandidate := "", "";
    }

    /** One step.  A failing write leaves its file in any state, and touches no other file. */
    method Perform(step: Step, j: Job, o: Outcome) returns (ok: bool)
      requires IsHost(j.host)
      modifies this
      ensures ok ==> o.ok
      ensures !step.StageCaddy? && !step.StageDns? ==> ok == o.ok
      ensures !step.InstallCaddy? ==> caddy == old(caddy)
      ensures !step.InstallDns? ==> dns == old(dns)
      ensures !step.WriteCompose? ==> compose == old(compose)
      ensures !step.Link? ==> current == old(current)
      ensures !step.StageCaddy? ==> caddyCandidate == old(caddyCandidate)
      ensures !step.StageDns? ==> dnsCandidate == old(dnsCandidate)
      ensures step.InstallCaddy? && ok ==> caddy == caddyCandidate
      ensures step.InstallDns? && ok ==> dns == dnsCandidate
      ensures SameBut(j.dashboard, old(compose), compose) && SameBut(j.dashboard, old(current), current)
      ensures step.WriteCompose? && ok ==> compose == old(compose)[j.dashboard := j.yaml]
      ensures step.Link? && ok ==> current == old(current)[j.dashboard := Release(j)]
      ensures step.StageCaddy? ==>
                ok == (o.ok && NewCaddy(j, caddy).Some?) && (ok ==> NewCaddy(j, caddy) == Some(caddyCandidate))
      ensures step.StageDns? ==> ok == (o.ok && NewDns(j, dns).Some?) && (ok ==> NewDns(j, dns) == Some(dnsCandidate))
    {
      ok := o.ok;
      match step {
        case Link =>
          current := current[j.dashboard := if ok then Release(j) else o.debris];
        case WriteCompose =>
          compose := compose[j.dashboard := if ok then j.yaml else o.debris];
        case StageCaddy =>
          var text := NewCaddy(j, caddy);
          ok := ok && text.Some?;
          caddyCandidate := if ok then text.value else o.debris;
        case InstallCaddy =>
          caddy := if ok then caddyCandidate else o.debris;
        case StageDns =>
          var lines := UpdateLines(Lines(Translate(dns)), j.host);
          ok := ok && lines.Some?;
          dnsCandidate := if ok then Unlines(lines.value) else o.debris;
        case InstallDns =>
          dns := if ok then dnsCandidate else o.debris;
        case _ =>
      }
    }

    /** The rollback: the two shared files always, the dashboard's own files where there was a backup. */
    method Rollback(caddyBefore: string, dnsBefore: string, dashboard: Dashboard, composeBefore: Option<string>,
                    currentBefore: Option<string>)
      modifies this`caddy, this`dns, this`compose, this`current
      ensures caddy == caddyBefore && dns == dnsBefore
      ensures compose == if composeBefore.Some? then old(compose)[dashboard := composeBefore.value] else old(compose)
      ensures current ==
              if composeBefore.Some? && currentBefore.Some? then old(current)[dashboard := currentBefore.value]
              else old(current)
    {
      caddy := caddyBefore;
      dns := dnsBefore;
      if composeBefore.Some? {
        compose := compose[dashboard := composeBefore.value];
        if currentBefore.Some? {
          current := current[dashboard := currentBefore.value];
        }
      }
    }

    /** The steps while the trap is set, until the first one that fails. */
    method RunSteps(j: Job, outcomes: seq<Outcome>) returns (ok: bool)
      requires |outcomes| == |STEPS| && IsHost(j.host)
      modifies this
      ensures ok <==>
        && (forall k :: 0 <= k < |STEPS| ==> outcomes[k].ok)
        && NewCaddy(j, old(caddy)).Some? && NewDns(j, old(dns)).Some?
      ensures ok ==> NewCaddy(j, old(caddy)) == Some(caddy) && NewDns(j, old(dns)) == Some(dns)
      ensures SameBut(j.dashboard, old(compose), compose) && SameBut(j.dashboard, old(current), current)
      ensures ok ==>
                compose == old(compose)[j.dashboard := j.yaml] && current == old(current)[j.dashboard := Release(j)]
    {
      ghost var caddyBefore, dnsBefore := caddy, dns;
      ghost var newCaddy, newDns := NewCaddy(j, caddy), NewDns(j, dns);
      for k := 0 to |STEPS|
        invariant AllOk(outcomes, k)
        invariant current == if k > 1 then old(current)[j.dashboard := Release(j)] else old(current)
        invariant compose == if k > 2 then old(compose)[j.dashboard := j.yaml] else old(compose)
        invariant k > 4 ==> newCaddy == Some(caddyCandidate)
        invariant k <= 6 ==> caddy == caddyBefore
        invariant k > 6 ==> caddy == caddyCandidate
        invariant k > 8 ==> newDns == Some(dnsCandidate)
        invariant k <= 10 ==> dns == dnsBefore
        invariant k > 10 ==> dns == dnsCandidate
      {
        StepsAre(k);
        ok := Perform(STEPS[k], j, outcomes[k]);
        if !ok {
          return;
        }
        OneMoreOk(outcomes, k);
      }
      return true;
    }

    /**
     One deployment.  It succeeds exactly when every step of the outside world does and neither file
     holds an incomplete block or a conflicting entry; then both shared files are the updated ones.
     A run that fails at any step leaves both shared files as they were.
     */
    method Deploy(j: Job, backedUp: bool, outcomes: seq<Outcome>) returns (r: Result)
      requires |outcomes| == |STEPS| && IsHost(j.host)
      modifies this
      ensures r.NotStarted? <==> !backedUp
      ensures r.Deployed? <==>
        && backedUp && (forall k :: 0 <= k < |STEPS| ==> outcomes[k].ok)
        && NewCaddy(j, old(caddy)).Some? && NewDns(j, old(dns)).Some?
      ensures r.Deployed? ==> NewCaddy(j, old(caddy)) == Some(caddy) && NewDns(j, old(dns)) == Some(dns)
      ensures SameBut(j.dashboard, old(compose), compose) && SameBut(j.dashboard, old(current), current)
      ensures r.Deployed? ==>
                compose == old(compose)[j.dashboard := j.yaml] && current == old(current)[j.dashboard := Release(j)]
      ensures !r.Deployed? ==> caddy == old(caddy) && dns == old(dns)
      ensures !r.Deployed? && j.dashboard in old(compose) ==>
                compose == old(compose) && (j.dashboard in old(current) ==> current == old(current))
    {
      if !backedUp {
        return NotStarted;
      }
      var caddyBefore, dnsBefore := caddy, dns;
      var composeBefore := if j.dashboard in compose then Some(compose[j.dashboard]) else None;
      var currentBefore := if j.dashboard in current then Some(current[j.dashboard]) else None;
      var ok := RunSteps(j, outcomes);
      if !ok {
        if composeBefore.Some? { Restored(j.dashboard, old(compose), compose); }
        if currentBefore.Some? { Restored(j.dashboard, old(current), current); }
        Rollback(caddyBefore, dnsBefore, j.dashboard, composeBefore, currentBefore);
        return RolledBack;
      }
      return Deployed;
    }

    /** One deployment after the ones in `done`, on files that were `base` and `names` before all of them. */
    method DeployNext(run: Attempt, ghost base: string, ghost names: string, ghost done: seq<Dashboard>)
      returns (ok: bool)
      requires |run.outcomes| == |STEPS|
      requires (forall d :: Free(Translate(base), BlockOf(d))) && forall d :: d in done ==> !HasConflict(names, d)
      requires caddy == AfterDeployments(base, done) && dns == DnsAfterDeployments(names, done)
      modifies this
      ensures ok <==> Succeeds(names, run)
      ensures ok ==> caddy == AfterDeployments(base, done + [run.dashboard])
      ensures ok ==> dns == DnsAfterDeployments(names, done + [run.dashboard])
      ensures !ok ==> caddy == old(caddy) && dns == old(dns)
      ensures RunsAfter(old(compose), old(current), compose, current, run, ok)
    {
      RecordIsHost(run.dashboard);
      var job := JobOf(run.dashboard, run.stamp, run.yaml);
      OneMoreDeployment(base, done, run.dashboard, run.stamp, run.yaml);
      OneMoreRecord(names, done, job, run.dashboard);
      var r := Deploy(job, run.backedUp, run.outcomes);
      ok := r.Deployed?;
      RunsOn(old(compose), old(current), compose, current, run, ok);
    }

    /** One run more. */
    method DeployMore(run: Attempt, ghost start: Disk, ghost runs: seq<Attempt>, done: seq<Dashboard>)
      returns (done': seq<Dashboard>)
      requires |run.outcomes| == |STEPS| && NoMarkers(start.caddy)
      requires Reached(start, runs, done, Disk(caddy, dns, compose, current))
      modifies this
      ensures Reached(start, runs + [run], done', Disk(caddy, dns, compose, current))
    {
      ghost var before := Disk(caddy, dns, compose, current);
      SucceedingHadNoConflict(start.dns, runs);
      var ok := DeployNext(run, start.caddy, start.dns, done);
      done' := if ok then done + [run.dashboard] else done;
      ReachedMore(start, runs, done, before, run, ok, Disk(caddy, dns, compose, current));
    }

    /**
     Any sequence of deployments, failing or not, on a file without the markers.  Which of them succeed
     is known from the start: those whose steps succeed and whose host has no conflicting entry.  The
     two files are then what these deployments make of them, in order, and every dashboard deployed at
     all runs with container file and release of its last succeeding run.
     */
    method DeployAll(runs: seq<Attempt>) returns (done: seq<Dashboard>)
      requires forall k :: 0 <= k < |runs| ==> |runs[k].outcomes| == |STEPS|
      requires NoMarkers(caddy)
      modifies this
      ensures Reached(old(Disk(caddy, dns, compose, current)), runs, done, Disk(caddy, dns, compose, current))
    {
      done := [];
      ghost var start := Disk(caddy, dns, compose, current);
      NothingRun(start);
      assert runs[..0] == [];
      for i := 0 to |runs|
        invariant Reached(start, runs[..i], done, Disk(caddy, dns, compose, current))
      {
        done := DeployMore(runs[i], start, runs[..i], done);
        assert runs[..i + 1] == runs[..i] + [runs[i]];
      }
      assert runs[..|runs|] == runs;
    }
  }

  function JobOf(d: Dashboard, stamp: string, yaml: string): Job {
    Job(d, BlockOf(d), HostOf(d), stamp, yaml)
  }

  /** The dashboard of this run has the container file and the release of the run. */
  predicate Runs(compose: Table, current: Table, run: Attempt) {
    var d := run.dashboard;
    && d in compose && compose[d] == run.yaml
    && d in current && current[d] == "releases/" + run.stamp
  }

  /** The run succeeds and no later one of its dashboard does. */
  ghost predicate IsLastSuccess(names: string, runs: seq<Attempt>, k: nat) {
    && k < |runs| && Succeeds(names, runs[k])
    && forall j :: k < j < |runs| && Succeeds(names, runs[j]) ==> runs[j].dashboard != runs[k].dashboard
  }

  /** Every dashboard that any run deployed has what its last succeeding run deployed. */
  ghost predicate LastRuns(names: string, runs: seq<Attempt>, compose: Table,
                           current: Table)
  {
    forall k: nat :: IsLastSuccess(names, runs, k) ==> Runs(compose, current, runs[k])
  }

  /** A successful run runs, and an older one does unless it was replaced. */
  ghost predicate RunsAfter(compose: Table, current: Table,
                            compose': Table, current': Table, run: Attempt, ok: bool)
  {
    && (ok ==> Runs(compose', current', run))
    && forall r: Attempt :: Runs(compose, current, r) && !(ok && r.dashboard == run.dashboard) ==>
         Runs(compose', current', r)
  }

  lemma RunsOn(compose: Table, current: Table,
               compose': Table, current': Table, run: Attempt, ok: bool)
    requires SameBut(run.dashboard, compose, compose') && SameBut(run.dashboard, current, current')
    requires ok ==> compose' == compose[run.dashboard := run.yaml]
    requires ok ==> current' == current[run.dashboard := "releases/" + run.stamp]
    requires !ok && run.dashboard in compose ==>
               compose' == compose && (run.dashboard in current ==> current' == current)
    ensures RunsAfter(compose, current, compose', current', run, ok)
  {
    KeptElsewhere(run.dashboard, compose, compose');
    KeptElsewhere(run.dashboard, current, current');
  }

  /** The file has no marker of either dashboard. */
  ghost predicate NoMarkers(file: string) {
    forall d :: Free(Translate(file), BlockOf(d))
  }

  /** What is on the server, apart from the candidate files. */
  datatype Disk = Disk(caddy: string, dns: string, compose: Table, current: Table)

  /** These are the dashboards of the succeeding runs, in order. */
  ghost predicate AreSucceeding(file: string, runs: seq<Attempt>, done: seq<Dashboard>) {
    done == Succeeding(file, runs)
  }

  /** What these runs make of the server. */
  ghost predicate Reached(start: Disk, runs: seq<Attempt>, done: seq<Dashboard>, disk: Disk) {
    && AreSucceeding(start.dns, runs, done)
    && disk.caddy == AfterDeployments(start.caddy, done)
    && disk.dns == DnsAfterDeployments(start.dns, done)
    && LastRuns(start.dns, runs, disk.compose, disk.current)
  }

  lemma NothingRun(start: Disk)
    ensures Reached(start, [], [], start)
  {
  }

  lemma ReachedMore(start: Disk, runs: seq<Attempt>, done: seq<Dashboard>, disk: Disk, run: Attempt, ok: bool,
                    disk': Disk)
    requires Reached(start, runs, done, disk) && (ok <==> Succeeds(start.dns, run))
    requires disk'.caddy == if ok then AfterDeployments(start.caddy, done + [run.dashboard]) else disk.caddy
    requires disk'.dns == if ok then DnsAfterDeployments(start.dns, done + [run.dashboard]) else disk.dns
    requires RunsAfter(disk.compose, disk.current, disk'.compose, disk'.current, run, ok)
    ensures Reached(start, runs + [run], if ok then done + [run.dashboard] else done, disk')
  {
    assert (runs + [run])[..|runs|] == runs;
    LastRunsMore(start.dns, runs, run, ok, disk.compose, disk.current, disk'.compose, disk'.current);
  }

  lemma LastRunsMore(names: string, runs: seq<Attempt>, run: Attempt, ok: bool, compose: Table,
                     current: Table, compose': Table, current': Table)
    requires LastRuns(names, runs, compose, current) && (ok <==> Succeeds(names, run))
    requires RunsAfter(compose, current, compose', current', run, ok)
    ensures LastRuns(names, runs + [run], compose', current')
  {
    LastSuccessMore(names, runs, run);
    forall k: nat | IsLastSuccess(names, runs + [run], k) ensures Runs(compose', current', (runs + [run])[k]) {
      if k < |runs| { assert Runs(compose, current, runs[k]); }
    }
  }

  lemma LastSuccessMore(names: string, runs: seq<Attempt>, run: Attempt)
    ensures forall k: nat :: IsLastSuccess(names, runs + [run], k) ==>
              if k == |runs| then Succeeds(names, run)
              else IsLastSuccess(names, runs, k) && (Succeeds(names, run) ==> runs[k].dashboard != run.dashboard)
  {
    var all := runs + [run];
    forall k: nat | IsLastSuccess(names, all, k) && k < |runs|
      ensures IsLastSuccess(names, runs, k) && (Succeeds(names, run) ==> runs[k].dashboard != run.dashboard)
    {
      assert all[|runs|] == run && forall j :: 0 <= j < |runs| ==> all[j] == runs[j];
    }
  }

  datatype Attempt = Attempt(dashboard: Dashboard, stamp: string, yaml: string, backedUp: bool, outcomes: seq<Outcome>)

  /** The first `k` steps of the outside world succeed. */
  predicate AllOk(outcomes: seq<Outcome>, k: nat) {
    k <= |outcomes| && forall i :: 0 <= i < k ==> outcomes[i].ok
  }

  lemma OneMoreOk(outcomes: seq<Outcome>, k: nat)
    requires k < |outcomes| && AllOk(outcomes, k) && outcomes[k].ok
    ensures AllOk(outcomes, k + 1)
  {
  }

  lemma StepsAre(k: nat)
    requires k < |STEPS|
    ensures STEPS[k].Link? <==> k == 1
    ensures STEPS[k].WriteCompose? <==> k == 2
    ensures STEPS[k].StageCaddy? <==> k == 4
    ensures STEPS[k].InstallCaddy? <==> k == 6
    ensures STEPS[k].StageDns? <==> k == 8
    ensures STEPS[k].InstallDns? <==> k == 10
  {
  }

  // ----- any number of deployments

  function Blocks(done: seq<Dashboard>): seq<Target> {
    seq(|done|, k requires 0 <= k < |done| => BlockOf(done[k]))
  }

  function AfterDeployments(file: string, done: seq<Dashboard>): string {
    if done == [] then file else MarkerBlocks.Deployed(Translate(file), Blocks(done))
  }

  lemma {:induction false} RenderHasNoReturn(kept: string, order: seq<Target>)
    requires '\r' !in kept && forall k :: 0 <= k < |order| ==> '\r' !in Block(order[k])
    ensures '\r' !in Render(kept, order)
  {
    if order != [] { RenderHasNoReturn(kept, order[..|order| - 1]); }
  }

  lemma DeployedHasNoReturn(base: string, ts: seq<Target>)
    requires '\r' !in base && forall k :: 0 <= k < |ts| ==> '\r' !in Block(ts[k])
    ensures '\r' !in MarkerBlocks.Deployed(base, ts)
  {
    FirstsAre(ts);
    TrimEndIs(base);
    var order := Firsts(ts);
    forall k | 0 <= k < |order| ensures '\r' !in Block(order[k]) { assert order[k] in order; }
    RenderHasNoReturn(TrimEnd(base), order);
  }

  lemma BlocksAreFree(file: string, done: seq<Dashboard>)
    requires forall e :: Free(file, BlockOf(e))
    ensures forall t :: t in Blocks(done) ==> t in FAMILY && Free(file, t) && '\r' !in Block(t)
  {
    forall t | t in Blocks(done) ensures t in FAMILY && Free(file, t) && '\r' !in Block(t) {
      var k :| 0 <= k < |done| && t == BlockOf(done[k]);
      BlockIsTarget(done[k]);
    }
  }

  lemma NothingToTranslate(file: string, done: seq<Dashboard>)
    requires forall t :: t in Blocks(done) ==> '\r' !in Block(t)
    ensures Translate(AfterDeployments(file, done)) == MarkerBlocks.Deployed(Translate(file), Blocks(done))
  {
    TranslateIs(file);
    if done != [] {
      DeployedHasNoReturn(Translate(file), Blocks(done));
      TranslateIs(MarkerBlocks.Deployed(Translate(file), Blocks(done)));
    }
  }

  /** A further deployment of a dashboard, whatever was deployed before, has the effect of `AfterDeployments`. */
  lemma OneMoreDeployment(file: string, done: seq<Dashboard>, d: Dashboard, stamp: string, yaml: string)
    requires forall e :: Free(Translate(file), BlockOf(e))
    ensures NewCaddy(JobOf(d, stamp, yaml), AfterDeployments(file, done)) == Some(AfterDeployments(file, done + [d]))
  {
    BlocksAreFree(Translate(file), done);
    NothingToTranslate(file, done);
    BlocksAreFamily();
    BlocksMore(done, d);
    DeployOneMore(Translate(file), Blocks(done), BlockOf(d), FAMILY);
  }

  lemma BlocksMore(done: seq<Dashboard>, d: Dashboard)
    ensures Blocks(done + [d]) == Blocks(done) + [BlockOf(d)] && BlockOf(d) in FAMILY
  {
  }

  lemma BlocksDiffer(d: Dashboard, e: Dashboard)
    requires BlockOf(d) == BlockOf(e)
    ensures d == e
  {
    MarkersDiffer();
    var a, b := BlockOf(d), BlockOf(e);
    assert a.begin[|BEGIN|..] == Marker(d) && b.begin[|BEGIN|..] == Marker(e);
  }

  /** After any deployments the text as read has each deployed dashboard's block once, no marker of any other, and
      begins with the kept text. */
  lemma BlocksAfterDeployments(file: string, done: seq<Dashboard>, d: Dashboard)
    requires forall e :: Free(Translate(file), BlockOf(e))
    ensures
      var text := Translate(AfterDeployments(file, done));
      && (if d in done then HasBlockOnce(text, BlockOf(d)) else Free(text, BlockOf(d)))
      && TrimEnd(Translate(file)) <= text
  {
    BlocksAreFree(Translate(file), done);
    NothingToTranslate(file, done);
    BlocksAreFamily();
    InBlocks(done, d);
    OneBlockEach(Translate(file), Blocks(done), FAMILY, BlockOf(d));
    TrimEndIs(Translate(file));
    RenderExtends(TrimEnd(Translate(file)), Firsts(Blocks(done)));
  }

  lemma InBlocks(done: seq<Dashboard>, d: Dashboard)
    ensures BlockOf(d) in Blocks(done) <==> d in done
  {
    if BlockOf(d) in Blocks(done) {
      var k :| 0 <= k < |done| && Blocks(done)[k] == BlockOf(d);
      BlocksDiffer(done[k], d);
    }
    if d in done {
      var k :| 0 <= k < |done| && done[k] == d;
      assert Blocks(done)[k] == BlockOf(d);
    }
  }

  /** Deploying one dashboard neither causes nor removes a DNS conflict for the other. */
  lemma DashboardsDoNotConflict(text: string, d: Dashboard, e: Dashboard)
    requires d != e && UpdateText(text, HostOf(d)).Some?
    ensures UpdateText(UpdateText(text, HostOf(d)).value, HostOf(e)).Some? <==> UpdateText(text, HostOf(e)).Some?
  {
    RecordIsHost(d);
    RecordIsHost(e);
    RecordsApart(d, e);
    NoMutualConflict(text, HostOf(d), HostOf(e));
  }

  // ----- the DNS file over sequences

  /** Another active line names the host and the file as it is lacks the record. */
  predicate HasConflict(file: string, d: Dashboard) {
    Conflict(Lines(Translate(file)), HostOf(d))
  }

  /** The run's own steps succeed and its host has no conflicting entry in the file. */
  predicate Succeeds(file: string, run: Attempt) {
    run.backedUp && (forall k :: 0 <= k < |run.outcomes| ==> run.outcomes[k].ok) && !HasConflict(file, run.dashboard)
  }

  /** The dashboards of the succeeding runs, in order. */
  function Succeeding(file: string, runs: seq<Attempt>): seq<Dashboard> {
    if runs == [] then [] else
      var before, last := Succeeding(file, runs[..|runs| - 1]), runs[|runs| - 1];
      if Succeeds(file, last) then before + [last.dashboard] else before
  }

  /** The lines with the record of every deployed dashboard, each added where it was missing. */
  function WithRecords(lines: seq<string>, done: seq<Dashboard>): seq<string> {
    if done == [] then lines else
      var before, record := WithRecords(lines, done[..|done| - 1]), HostOf(done[|done| - 1]).record;
      if record in before then before else before + [record]
  }

  function DnsAfterDeployments(file: string, done: seq<Dashboard>): string {
    if done == [] then file else Unlines(WithRecords(Lines(Translate(file)), done))
  }

  lemma {:induction false} SucceedingHadNoConflict(file: string, runs: seq<Attempt>)
    ensures forall d :: d in Succeeding(file, runs) ==> !HasConflict(file, d)
  {
    if runs != [] { SucceedingHadNoConflict(file, runs[..|runs| - 1]); }
  }

  /** All lines are kept, in front and in order; whatever is added is the record of a deployed dashboard. */
  lemma {:induction false} WithRecordsKeeps(lines: seq<string>, done: seq<Dashboard>)
    ensures lines <= WithRecords(lines, done)
    ensures forall k :: |lines| <= k < |WithRecords(lines, done)| ==>
              exists d :: d in done && WithRecords(lines, done)[k] == HostOf(d).record
    ensures forall d :: d in done ==> HostOf(d).record in WithRecords(lines, done)
  {
    if done != [] {
      var front, last := done[..|done| - 1], done[|done| - 1];
      WithRecordsKeeps(lines, front);
      assert done == front + [last];
      var before, after := WithRecords(lines, front), WithRecords(lines, done);
      forall k | |lines| <= k < |after| ensures exists d :: d in done && after[k] == HostOf(d).record {
        if k < |before| {
          var d :| d in front && before[k] == HostOf(d).record;
          assert d in done;
        } else {
          assert last in done;
        }
      }
    }
  }

  /** Deployments add no conflict and remove none: a dashboard whose host had no conflict at the start still has
      none. */
  lemma ConflictsStay(lines: seq<string>, done: seq<Dashboard>, d: Dashboard)
    requires forall e :: e in done ==> !Conflict(lines, HostOf(e))
    ensures Conflict(WithRecords(lines, done), HostOf(d)) <==> Conflict(lines, HostOf(d))
  {
    var after, h := WithRecords(lines, done), HostOf(d);
    WithRecordsKeeps(lines, done);
    RecordIsHost(d);
    if d !in done {
      forall k | |lines| <= k < |after| ensures !Active(after[k], h.name) && after[k] != h.record {
        var e :| e in done && after[k] == HostOf(e).record;
        RecordsApart(e, d);
      }
      SameActive(lines, after, h);
    }
  }

  lemma SameActive(lines: seq<string>, after: seq<string>, h: Host)
    requires lines <= after && forall k :: |lines| <= k < |after| ==> !Active(after[k], h.name) && after[k] != h.record
    ensures Conflict(after, h) <==> Conflict(lines, h)
  {
    assert forall k :: 0 <= k < |lines| ==> lines[k] == after[k];
    assert h.record in after <==> h.record in lines;
  }

  lemma {:induction false} RecordsAreLines(lines: seq<string>, done: seq<Dashboard>)
    requires forall k :: 0 <= k < |lines| ==> IsLine(lines[k])
    ensures forall k :: 0 <= k < |WithRecords(lines, done)| ==> IsLine(WithRecords(lines, done)[k])
  {
    if done != [] {
      RecordsAreLines(lines, done[..|done| - 1]);
      RecordIsHost(done[|done| - 1]);
    }
  }

  lemma {:induction false} UnlinesHasNoReturn(lines: seq<string>)
    requires forall k :: 0 <= k < |lines| ==> IsLine(lines[k])
    ensures '\r' !in Unlines(lines)
  {
    if lines != [] { UnlinesHasNoReturn(lines[1..]); }
  }

  /** The lines of the file as the next deployment reads it. */
  lemma DnsLinesRead(file: string, done: seq<Dashboard>)
    ensures Lines(Translate(DnsAfterDeployments(file, done))) == WithRecords(Lines(Translate(file)), done)
  {
    if done != [] {
      var lines := Lines(Translate(file));
      LinesAreLines(Translate(file));
      RecordsAreLines(lines, done);
      UnlinesHasNoReturn(WithRecords(lines, done));
      TranslateIs(Unlines(WithRecords(lines, done)));
      LinesReadBack(WithRecords(lines, done));
    }
  }

  /** A further update succeeds exactly when there was no conflict at the start, and adds the record where it is
      missing. */
  lemma OneMoreRecord(file: string, done: seq<Dashboard>, job: Job, d: Dashboard)
    requires job.host == HostOf(d) && forall e :: e in done ==> !HasConflict(file, e)
    ensures NewDns(job, DnsAfterDeployments(file, done)).Some? <==> !HasConflict(file, d)
    ensures !HasConflict(file, d) ==>
              NewDns(job, DnsAfterDeployments(file, done)) == Some(DnsAfterDeployments(file, done + [d]))
  {
    DnsLinesRead(file, done);
    ConflictsStay(Lines(Translate(file)), done, d);
    assert (done + [d])[..|done|] == done;
  }
}

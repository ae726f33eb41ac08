/**
 The traceability authority: what the project model, the evidence files and the gate files
 prescribe for every requirement, and the links that must close between them.
 */
module TraceAuthority {
  import opened Options
  import opened Counting
  import opened Traceability

  // ----- evidence and gate files

  /** The fields of an evidence or gate file that the checks read; a file without them is unreadable or unsafe. */
  datatype EvidenceRecord = EvidenceRecord(id: Raw, outcome: Raw, contract: Raw)
  datatype EvidenceFile = EvidenceFile(stem: string, content: Option<EvidenceRecord>)

  datatype GateRecord = GateRecord(id: Raw, target: Raw, state: Raw, required: RawList, noWaiver: bool, contract: Raw)
  datatype GateFile = GateFile(stem: string, content: Option<GateRecord>)

  /** What is kept of a gate. */
  datatype Gate = Gate(target: string, required: set<string>)

  datatype Fault =
    | BadEvidence(stem: string)
    | BadGate(stem: string)
    | StrayManifest(artifact: string)
    | MalformedManifest(artifact: string)
    | ManifestSchema(artifact: string)
    | RequirementCatalog(artifact: string)
    | MalformedMapping(requirement: string)
    | MalformedValues(requirement: string, kind: Kind)
    | NormalizationCollision(requirement: string, kind: Kind)
    | UnknownNames(requirement: string, kind: Kind)
    | TaskMilestone(requirement: string)
    | GateMilestone(requirement: string)
    | GateEvidence(requirement: string)
    | MissingAuthority(requirements: set<string>)

  predicate IsHash(r: Raw) {
    r.Text? && |r.text| == 64
  }

  predicate SkippedEvidence(stem: string) {
    stem == "EVD-M10" || "EVD-M10-" <= stem
  }

  /** Passed over are the evidence of milestone ten and its parts. */
  lemma SkippedMeans(stem: string)
    ensures SkippedEvidence(stem) <==> stem == "EVD-M10" || exists part :: stem == "EVD-M10" + ("-" + part)
    ensures !SkippedEvidence("EVD-M11-BUILD") && !SkippedEvidence("EVD-M1")
  {
    if "EVD-M10-" <= stem {
      assert stem == "EVD-M10-" + stem[8..];
      assert stem == "EVD-M10" + ("-" + stem[8..]);
    }
    if part :| stem == "EVD-M10" + ("-" + part) { assert stem == "EVD-M10-" + part; }
    assert "EVD-M11-BUILD"[6] == '1' && "EVD-M10-"[6] == '0';
  }

  predicate GoodEvidence(f: EvidenceFile) {
    && f.content.Some? && f.content.value.id == Text(f.stem)
    && f.content.value.outcome == Text("PASS") && IsHash(f.content.value.contract)
  }

  predicate UsesEvidence(f: EvidenceFile) {
    !SkippedEvidence(f.stem) && GoodEvidence(f)
  }

  /** The contract of each evidence; of two files with one stem the later one counts. */
  function Contracts(files: seq<EvidenceFile>): map<string, string> {
    if files == [] then map[] else
      var before, f := Contracts(files[..|files| - 1]), files[|files| - 1];
      if UsesEvidence(f) then before[f.stem := f.content.value.contract.text] else before
  }

  /** A file that is neither passed over nor good. */
  predicate IsEvidenceFault(files: seq<EvidenceFile>, x: Fault) {
    x.BadEvidence? && exists f :: f in files && f.stem == x.stem && !SkippedEvidence(f.stem) && !GoodEvidence(f)
  }

  method ReadEvidence(files: seq<EvidenceFile>) returns (contracts: map<string, string>, faults: seq<Fault>)
    ensures contracts == Contracts(files)
    ensures faults == [] <==> forall f :: f in files ==> SkippedEvidence(f.stem) || GoodEvidence(f)
    ensures forall x :: x in faults <==> IsEvidenceFault(files, x)
  {
    contracts, faults := map[], [];
    for k := 0 to |files|
      invariant contracts == Contracts(files[..k])
      invariant faults == [] <==> forall f :: f in files[..k] ==> SkippedEvidence(f.stem) || GoodEvidence(f)
      invariant forall x :: x in faults <==> IsEvidenceFault(files[..k], x)
    {
      assert files[..k + 1][..k] == files[..k] && files[..k + 1] == files[..k] + [files[k]];
      var f := files[k];
      if !SkippedEvidence(f.stem) {
        if GoodEvidence(f) {
          contracts := contracts[f.stem := f.content.value.contract.text];
        } else {
          faults := faults + [BadEvidence(f.stem)];
        }
      }
    }
    assert files[..|files|] == files;
  }

  /** A contract on record comes from a passing evidence file. */
  lemma {:induction false} ContractComesFrom(files: seq<EvidenceFile>, stem: string) returns (f: EvidenceFile)
    requires stem in Contracts(files)
    ensures f in files && f.stem == stem && GoodEvidence(f) && f.content.value.contract == Text(Contracts(files)[stem])
  {
    var front, last := files[..|files| - 1], files[|files| - 1];
    if UsesEvidence(last) && last.stem == stem {
      f := last;
    } else {
      f := ContractComesFrom(front, stem);
    }
  }

  /** Of two files with one stem the later one counts. */
  lemma LaterFileCounts(files: seq<EvidenceFile>, f: EvidenceFile)
    requires UsesEvidence(f)
    ensures f.stem in Contracts(files + [f]) && Text(Contracts(files + [f])[f.stem]) == f.content.value.contract
  {
    assert (files + [f])[..|files|] == files;
  }

  const SKIPPED_GATE := "G-M10-MILESTONE"

  function Required(g: GateRecord): Option<seq<string>> {
    var names := Names(g.required);
    if names.Some? && names.value != [] && "" !in names.value then names else None
  }

  /** The evidence a gate requires: one or more non-empty strings. */
  lemma RequiredMeans(g: GateRecord, names: seq<string>)
    ensures Required(g) == Some(names) <==>
            g.required == TextList(names) && |names| > 0 && forall k :: 0 <= k < |names| ==> names[k] != ""
  {
    NamesMean(g.required, names);
    if Required(g) == Some(names) {
      forall k | 0 <= k < |names| ensures names[k] != "" { assert names[k] in names; }
    }
  }

  predicate GoodGate(f: GateFile, contracts: map<string, string>) {
    && f.content.Some?
    && var g := f.content.value;
       && g.id == Text(f.stem) && g.target.Text? && g.state == Text("PASS")
       && Required(g).Some? && g.noWaiver && IsHash(g.contract)
       && forall e :: e in Required(g).value ==> e in contracts && contracts[e] == g.contract.text
  }

  function GateOf(g: GateRecord): Gate
    requires g.target.Text? && Required(g).Some?
  {
    Gate(g.target.text, Elements(Required(g).value))
  }

  function GatesOf(files: seq<GateFile>, contracts: map<string, string>): map<string, Gate> {
    if files == [] then map[] else
      var before, f := GatesOf(files[..|files| - 1], contracts), files[|files| - 1];
      if f.stem != SKIPPED_GATE && GoodGate(f, contracts) then before[f.stem := GateOf(f.content.value)] else before
  }

  predicate IsGateFault(files: seq<GateFile>, contracts: map<string, string>, x: Fault) {
    x.BadGate? && exists f :: f in files && f.stem == x.stem && f.stem != SKIPPED_GATE && !GoodGate(f, contracts)
  }

  method ReadGates(files: seq<GateFile>, contracts: map<string, string>)
    returns (gates: map<string, Gate>, faults: seq<Fault>)
    ensures gates == GatesOf(files, contracts)
    ensures faults == [] <==> forall f :: f in files ==> f.stem == SKIPPED_GATE || GoodGate(f, contracts)
    ensures forall x :: x in faults <==> IsGateFault(files, contracts, x)
  {
    gates, faults := map[], [];
    for k := 0 to |files|
      invariant gates == GatesOf(files[..k], contracts)
      invariant faults == [] <==> forall f :: f in files[..k] ==> f.stem == SKIPPED_GATE || GoodGate(f, contracts)
      invariant forall x :: x in faults <==> IsGateFault(files[..k], contracts, x)
    {
      assert files[..k + 1][..k] == files[..k] && files[..k + 1] == files[..k] + [files[k]];
      var f := files[k];
      if f.stem != SKIPPED_GATE {
        if GoodGate(f, contracts) {
          gates := gates[f.stem := GateOf(f.content.value)];
        } else {
          faults := faults + [BadGate(f.stem)];
        }
      }
    }
    assert files[..|files|] == files;
  }

  lemma {:induction false} GateComesFrom(files: seq<GateFile>, contracts: map<string, string>, stem: string)
    returns (f: GateFile)
    requires stem in GatesOf(files, contracts)
    ensures f in files && f.stem == stem && GoodGate(f, contracts)
    ensures GatesOf(files, contracts)[stem] == GateOf(f.content.value)
  {
    var front, last := files[..|files| - 1], files[|files| - 1];
    if last.stem != SKIPPED_GATE && GoodGate(last, contracts) && last.stem == stem {
      f := last;
    } else {
      f := GateComesFrom(front, contracts, stem);
    }
  }

  // ----- the project model

  /** The mapping of one requirement: values for each of the five maps, or not of that shape. */
  datatype RawMapping = Inexact | Exact(values: Kind -> RawList)

  /** The traceability manifest of an artifact; `otherKeys` counts the declared keys that are not strings. */
  datatype Manifest = Absent | Malformed | WrongSchema | Manifest(declared: map<string, RawMapping>, otherKeys: nat)

  /** Accepted entities, the artifact of each requirement, the dependencies of the tasks, the architecture names,
      the manifests of the accepted artifacts, and the number of problems found while collecting these. */
  datatype Model = Model(
    requirements: set<string>, milestones: set<string>, tasks: set<string>,
    artifactOf: map<string, string>, dependencies: map<string, set<string>>, architecture: set<string>,
    manifests: map<string, Manifest>, problems: nat)

  /** Every accepted requirement has been recorded with its artifact. */
  ghost predicate ValidModel(m: Model) {
    m.requirements <= m.artifactOf.Keys
  }

  /** Everything the requirements are checked against. */
  datatype Base = Base(catalog: Kind -> set<string>, gates: map<string, Gate>, dependencies: map<string, set<string>>)

  ghost predicate ValidBase(b: Base) {
    b.catalog(Gates) == b.gates.Keys
  }

  function BaseOf(m: Model, contracts: map<string, string>, gates: map<string, Gate>): Base {
    Base((k: Kind) => match k
              case Architecture => m.architecture
              case Ownership => m.milestones
              case Tasks => m.tasks
              case Evidence => contracts.Keys
              case Gates => gates.Keys,
         gates, m.dependencies)
  }

  // ----- one requirement

  /** The values for one map: usable names, different after normalisation, all in the catalog. */
  function Parsed(b: Base, values: Kind -> RawList, k: Kind): Option<set<string>> {
    match UsableNames(values(k))
    case None => None
    case Some(names) =>
      var normal := Image(Elements(names), Normal(k));
      if |normal| == |names| && normal <= b.catalog(k) then Some(normal) else None
  }

  function BeforeTask(s: string): string {
    if s == [] || "-T" <= s then [] else [s[0]] + BeforeTask(s[1..])
  }

  /** The text has no `-T` in it. */
  predicate WithoutTask(m: string) {
    forall i :: 0 <= i < |m| ==> !("-T" <= m[i..])
  }

  /** What stands before the first `-T`. */
  lemma {:induction false} BeforeTaskCuts(m: string, x: string)
    requires WithoutTask(m)
    ensures BeforeTask(m + ("-T" + x)) == m && BeforeTask(m) == m
  {
    var s := m + ("-T" + x);
    if m == "" {
      assert s == "-T" + x;
    } else {
      assert forall i :: 0 <= i < |m[1..]| ==> m[1..][i..] == m[i + 1..];
      assert s[1..] == m[1..] + ("-T" + x) && s[0] == m[0];
      BeforeTaskCuts(m[1..], x);
      NotAtHead(m, x);
      assert m == [m[0]] + m[1..] && m[0..] == m;
    }
  }

  lemma NotAtHead(m: string, x: string)
    requires m != "" && WithoutTask(m)
    ensures !("-T" <= m + ("-T" + x)) && !("-T" <= m)
  {
    var s := m + ("-T" + x);
    assert m[0..] == m;
    assert s[0] == m[0] && s[1] == if |m| > 1 then m[1] else '-';
    assert |m| > 1 ==> ("-T" <= m <==> m[0] == '-' && m[1] == 'T');
  }

  /** The task is the text before it, or that text with `-T` and more. */
  predicate BelongsTo(task: string, milestone: string) {
    task == milestone || milestone + "-T" <= task
  }

  lemma {:induction false} BeforeTaskIs(task: string)
    ensures BelongsTo(task, BeforeTask(task)) && WithoutTask(BeforeTask(task))
  {
    if task != "" && !("-T" <= task) {
      var m := BeforeTask(task[1..]);
      BeforeTaskIs(task[1..]);
      var b := BeforeTask(task);
      assert b == [task[0]] + m && task == [task[0]] + task[1..];
      BelongsMore(task[0], task[1..], m);
      forall i | 0 <= i < |b| ensures !("-T" <= b[i..]) {
        if i > 0 { assert b[i..] == m[i - 1..]; }
      }
    }
  }

  lemma BelongsMore(c: char, rest: string, m: string)
    requires BelongsTo(rest, m)
    ensures BelongsTo([c] + rest, [c] + m)
  {
    if m + "-T" <= rest {
      assert rest == m + "-T" + rest[|m| + 2..];
      assert [c] + rest == ([c] + m + "-T") + rest[|m| + 2..];
    }
  }

  predicate TaskFits(task: string, milestones: set<string>, dependencies: map<string, set<string>>) {
    && BeforeTask(task) in milestones
    && (task in dependencies && dependencies[task] != {} ==> dependencies[task] * milestones != {})
  }

  /** A task fits if and only if it belongs to one of the milestones, which the part before its first `-T` names, and
      one of its recorded dependencies, if it has any, is such a milestone. */
  lemma TaskFitsMeans(task: string, milestones: set<string>, dependencies: map<string, set<string>>)
    ensures TaskFits(task, milestones, dependencies) <==>
            && (exists m :: m in milestones && WithoutTask(m) && BelongsTo(task, m))
            && (task in dependencies && dependencies[task] != {} ==>
                  exists d :: d in dependencies[task] && d in milestones)
  {
    BeforeTaskIs(task);
    if m :| m in milestones && WithoutTask(m) && BelongsTo(task, m) {
      var x := if task == m then "" else task[|m| + 2..];
      BeforeTaskCuts(m, x);
      assert task != m ==> task == m + ("-T" + x);
    }
    if task in dependencies && dependencies[task] * milestones != {} {
      var d :| d in dependencies[task] * milestones;
    }
    if task in dependencies && exists d :: d in dependencies[task] && d in milestones {
      var d :| d in dependencies[task] && d in milestones;
      assert d in dependencies[task] * milestones;
    }
  }

  /** The evidence that some of these gates requires. */
  function RequiredBy(gates: map<string, Gate>, names: set<string>): set<string>
    requires names <= gates.Keys
  {
    set g, e | g in names && e in gates[g].required :: e
  }

  /** The links of a requirement close: tasks belong to its milestones, its gates target its milestones,
      and its evidence is exactly what its gates require. */
  predicate Linked(b: Base, p: map<Kind, set<string>>)
    requires (forall k: Kind :: k in p) && p[Gates] <= b.gates.Keys
  {
    && (forall t :: t in p[Tasks] ==> TaskFits(t, p[Ownership], b.dependencies))
    && (forall g :: g in p[Gates] ==> b.gates[g].target in p[Ownership])
    && p[Evidence] == RequiredBy(b.gates, p[Gates])
  }

  /** `p` is what the values of a mapping parse to. */
  ghost predicate ParsesTo(b: Base, values: Kind -> RawList, p: map<Kind, set<string>>) {
    forall k: Kind :: k in p && Parsed(b, values, k) == Some(p[k])
  }

  ghost predicate Parseable(b: Base, values: Kind -> RawList) {
    forall k: Kind :: Parsed(b, values, k).Some?
  }

  ghost predicate RequirementOk(b: Base, values: Kind -> RawList) {
    Parseable(b, values) && exists p :: ParsesTo(b, values, p) && p[Gates] <= b.gates.Keys && Linked(b, p)
  }

  /** What is wrong with the values for one map: their shape first, then colliding spellings, then unknown names. */
  ghost predicate IsKindFault(b: Base, requirement: string, values: Kind -> RawList, k: Kind, x: Fault) {
    var names := UsableNames(values(k));
    match x
    case MalformedValues(r, kind) => r == requirement && kind == k && names.None?
    case NormalizationCollision(r, kind) =>
      r == requirement && kind == k && names.Some? && !InjectiveOn(Elements(names.value), Normal(k))
    case UnknownNames(r, kind) =>
      && r == requirement && kind == k && names.Some? && InjectiveOn(Elements(names.value), Normal(k))
      && exists n :: n in names.value && Normal(k)(n) !in b.catalog(k)
    case _ => false
  }

  method ParseKind(b: Base, requirement: string, values: Kind -> RawList, k: Kind)
    returns (p: set<string>, faults: seq<Fault>)
    ensures faults == [] <==> Parsed(b, values, k).Some?
    ensures faults == [] ==> Parsed(b, values, k) == Some(p)
    ensures forall x :: x in faults <==> IsKindFault(b, requirement, values, k, x)
  {
    p, faults := {}, [];
    var names := UsableNames(values(k));
    if names.None? {
      return p, [MalformedValues(requirement, k)];
    }
    p := Image(Elements(names.value), Normal(k));
    DistinctIffAllCounted(names.value);
    ImageSize(Elements(names.value), Normal(k));
    NothingLeft(p, b.catalog(k));
    if |p| != |names.value| {
      faults := [NormalizationCollision(requirement, k)];
    } else if p - b.catalog(k) != {} {
      faults := [UnknownNames(requirement, k)];
    }
  }

  method ParseValues(b: Base, requirement: string, values: Kind -> RawList)
    returns (p: map<Kind, set<string>>, faults: seq<Fault>)
    ensures faults == [] <==> Parseable(b, values)
    ensures faults == [] ==> ParsesTo(b, values, p)
    ensures forall x :: x in faults <==> exists k :: IsKindFault(b, requirement, values, k, x)
  {
    p, faults := map[], [];
    for i := 0 to |KINDS|
      invariant faults == [] <==> forall k :: k in KINDS[..i] ==> Parsed(b, values, k).Some?
      invariant faults == [] ==> forall k :: k in KINDS[..i] ==> k in p && Parsed(b, values, k) == Some(p[k])
      invariant forall x :: x in faults <==> exists k :: k in KINDS[..i] && IsKindFault(b, requirement, values, k, x)
    {
      assert KINDS[..i + 1] == KINDS[..i] + [KINDS[i]];
      var parsed, more := ParseKind(b, requirement, values, KINDS[i]);
      p := p[KINDS[i] := parsed];
      faults := faults + more;
    }
    AllKinds();
    assert KINDS[..|KINDS|] == KINDS;
  }

  /** Which link of a parsed mapping does not close. */
  ghost predicate IsLinkFault(b: Base, requirement: string, p: map<Kind, set<string>>, x: Fault)
    requires (forall k: Kind :: k in p) && p[Gates] <= b.gates.Keys
  {
    match x
    case TaskMilestone(r) => r == requirement && exists t :: t in p[Tasks] && !TaskFits(t, p[Ownership], b.dependencies)
    case GateMilestone(r) => r == requirement && exists g :: g in p[Gates] && b.gates[g].target !in p[Ownership]
    case GateEvidence(r) => r == requirement && p[Evidence] != RequiredBy(b.gates, p[Gates])
    case _ => false
  }

  /** What is wrong with a mapping: its values, or else its links. */
  ghost predicate IsRequirementFault(b: Base, requirement: string, values: Kind -> RawList, x: Fault) {
    || (exists k :: IsKindFault(b, requirement, values, k, x))
    || (exists p :: ParsesTo(b, values, p) && p[Gates] <= b.gates.Keys && IsLinkFault(b, requirement, p, x))
  }

  /** One requirement of a manifest.  The gate lookup is defined because parsed gates are in the catalog. */
  method CheckRequirement(b: Base, requirement: string, values: Kind -> RawList)
    returns (p: Option<map<Kind, set<string>>>, faults: seq<Fault>)
    requires ValidBase(b)
    ensures p.Some? <==> Parseable(b, values)
    ensures p.Some? ==> ParsesTo(b, values, p.value)
    ensures faults == [] <==> RequirementOk(b, values)
    ensures forall x :: x in faults <==> IsRequirementFault(b, requirement, values, x)
  {
    var parsed, malformed := ParseValues(b, requirement, values);
    if malformed != [] {
      NoLinksParsed(b, requirement, values);
      return None, malformed;
    }
    p := Some(parsed);
    assert Parsed(b, values, Gates) == Some(parsed[Gates]);
    faults := CheckLinks(b, requirement, parsed);
    OkIffLinked(b, values, parsed);
    LinksOfParsed(b, requirement, values, parsed);
  }

  lemma NoLinksParsed(b: Base, requirement: string, values: Kind -> RawList)
    requires !Parseable(b, values)
    ensures forall x :: IsRequirementFault(b, requirement, values, x) <==>
                        exists k :: IsKindFault(b, requirement, values, k, x)
  {
    var k: Kind :| Parsed(b, values, k).None?;
    forall p ensures ParsesTo(b, values, p) ==> Parsed(b, values, k).Some? {
      if ParsesTo(b, values, p) { ParsedEach(b, values, p, k); }
    }
  }

  lemma ParsedEach(b: Base, values: Kind -> RawList, p: map<Kind, set<string>>, k: Kind)
    requires ParsesTo(b, values, p)
    ensures Parsed(b, values, k).Some?
  {
  }

  lemma KindFaultMeans(b: Base, requirement: string, values: Kind -> RawList, k: Kind)
    requires Parsed(b, values, k).Some?
    ensures forall x :: !IsKindFault(b, requirement, values, k, x)
  {
    var names := UsableNames(values(k)).value;
    DistinctIffAllCounted(names);
    ImageSize(Elements(names), Normal(k));
    assert forall n :: n in names ==> Normal(k)(n) in Image(Elements(names), Normal(k));
  }

  lemma LinksOfParsed(b: Base, requirement: string, values: Kind -> RawList, p: map<Kind, set<string>>)
    requires Parseable(b, values) && ParsesTo(b, values, p) && p[Gates] <= b.gates.Keys
    ensures forall x :: IsRequirementFault(b, requirement, values, x) <==> IsLinkFault(b, requirement, p, x)
  {
    forall k, x ensures !IsKindFault(b, requirement, values, k, x) {
      KindFaultMeans(b, requirement, values, k);
    }
    forall q | ParsesTo(b, values, q) ensures q == p { ParsedOnce(b, values, p, q); }
  }

  method CheckLinks(b: Base, requirement: string, p: map<Kind, set<string>>) returns (faults: seq<Fault>)
    requires (forall k: Kind :: k in p) && p[Gates] <= b.gates.Keys
    ensures faults == [] <==> Linked(b, p)
    ensures forall x :: x in faults <==> IsLinkFault(b, requirement, p, x)
  {
    faults := [];
    if exists t :: t in p[Tasks] && !TaskFits(t, p[Ownership], b.dependencies) {
      faults := faults + [TaskMilestone(requirement)];
    }
    if exists g :: g in p[Gates] && b.gates[g].target !in p[Ownership] {
      faults := faults + [GateMilestone(requirement)];
    }
    if p[Evidence] != RequiredBy(b.gates, p[Gates]) {
      faults := faults + [GateEvidence(requirement)];
    }
  }

  lemma OkIffLinked(b: Base, values: Kind -> RawList, p: map<Kind, set<string>>)
    requires Parseable(b, values) && ParsesTo(b, values, p) && p[Gates] <= b.gates.Keys
    ensures RequirementOk(b, values) <==> Linked(b, p)
  {
    if RequirementOk(b, values) {
      var q :| ParsesTo(b, values, q) && q[Gates] <= b.gates.Keys && Linked(b, q);
      ParsedOnce(b, values, p, q);
    }
  }

  lemma ParsedOnce(b: Base, values: Kind -> RawList, p: map<Kind, set<string>>, q: map<Kind, set<string>>)
    requires ParsesTo(b, values, p) && ParsesTo(b, values, q)
    ensures p == q
  {
    forall k: Kind ensures k in p && k in q && p[k] == q[k] { assert Parsed(b, values, k) == Some(p[k]); }
  }

  // ----- one artifact

  type Expected = map<string, map<Kind, set<string>>>

  /** The mapping a manifest declares for a requirement. */
  function Declared(manifest: Manifest, r: string): RawMapping {
    if manifest.Manifest? && r in manifest.declared then manifest.declared[r] else Inexact
  }

  ghost predicate DeclaredOk(b: Base, manifest: Manifest, r: string) {
    Declared(manifest, r).Exact? && RequirementOk(b, Declared(manifest, r).values)
  }

  /** An artifact without requirements has no manifest; any other declares exactly its requirements, each with closed
      links. */
  ghost predicate ArtifactOk(b: Base, manifest: Manifest, owned: set<string>) {
    if owned == {} then manifest.Absent? else
      && manifest.Manifest? && manifest.declared.Keys == owned && manifest.otherKeys == 0
      && forall r :: r in owned ==> DeclaredOk(b, manifest, r)
  }

  ghost predicate Yields(b: Base, manifest: Manifest, r: string) {
    Declared(manifest, r).Exact? && Parseable(b, Declared(manifest, r).values)
  }

  ghost predicate YieldsThis(b: Base, manifest: Manifest, r: string, p: map<Kind, set<string>>) {
    Declared(manifest, r).Exact? && ParsesTo(b, Declared(manifest, r).values, p)
  }

  /** What was found for these requirements: one parsed mapping for each that has one. */
  ghost predicate FoundAre(b: Base, manifest: Manifest, owned: set<string>, found: Expected) {
    && (forall r :: r in found <==> r in owned && Yields(b, manifest, r))
    && (forall r :: r in found ==> YieldsThis(b, manifest, r, found[r]))
  }

  ghost predicate IsDeclaredFault(b: Base, manifest: Manifest, r: string, x: Fault) {
    match Declared(manifest, r)
    case Inexact => x == MalformedMapping(r)
    case Exact(values) => IsRequirementFault(b, r, values, x)
  }

  /** What is wrong with the manifest of an artifact: one nobody asked for, its shape, or its catalog and what it
      declares for the requirements of the artifact. */
  ghost predicate IsArtifactFault(b: Base, artifact: string, manifest: Manifest, owned: set<string>, x: Fault) {
    if owned == {} then !manifest.Absent? && x == StrayManifest(artifact) else
    match manifest
    case Manifest(declared, otherKeys) =>
      || (x == RequirementCatalog(artifact) && (declared.Keys != owned || otherKeys != 0))
      || exists r :: r in owned && IsDeclaredFault(b, manifest, r, x)
    case WrongSchema => x == ManifestSchema(artifact)
    case _ => x == MalformedManifest(artifact)
  }

  method CheckDeclared(b: Base, manifest: Manifest, r: string)
    returns (p: Option<map<Kind, set<string>>>, faults: seq<Fault>)
    requires ValidBase(b)
    ensures p.Some? <==> Yields(b, manifest, r)
    ensures p.Some? ==> YieldsThis(b, manifest, r, p.value)
    ensures faults == [] <==> DeclaredOk(b, manifest, r)
    ensures forall x :: x in faults <==> IsDeclaredFault(b, manifest, r, x)
  {
    var mapping := Declared(manifest, r);
    if mapping.Inexact? {
      return None, [MalformedMapping(r)];
    }
    p, faults := CheckRequirement(b, r, mapping.values);
  }

  method CheckOwned(b: Base, manifest: Manifest, owned: set<string>) returns (found: Expected, faults: seq<Fault>)
    requires ValidBase(b)
    ensures FoundAre(b, manifest, owned, found)
    ensures faults == [] <==> forall r :: r in owned ==> DeclaredOk(b, manifest, r)
    ensures forall x :: x in faults <==> exists r :: r in owned && IsDeclaredFault(b, manifest, r, x)
  {
    found, faults := map[], [];
    var todo := owned;
    while todo != {}
      invariant todo <= owned
      invariant FoundAre(b, manifest, owned - todo, found)
      invariant faults == [] <==> forall r :: r in owned - todo ==> DeclaredOk(b, manifest, r)
      invariant forall x :: x in faults <==> exists r :: r in owned - todo && IsDeclaredFault(b, manifest, r, x)
      decreases todo
    {
      var r :| r in todo;
      var p, more := CheckDeclared(b, manifest, r);
      faults := faults + more;
      if p.Some? {
        found := found[r := p.value];
      }
      todo := todo - {r};
    }
    assert owned - todo == owned;
  }

  lemma NothingDeclared(b: Base, manifest: Manifest, owned: set<string>)
    requires owned == {} || !manifest.Manifest?
    ensures FoundAre(b, manifest, owned, map[])
  {
    if owned != {} {
      forall r ensures !Yields(b, manifest, r) { assert Declared(manifest, r).Inexact?; }
    }
  }

  method CheckArtifact(b: Base, artifact: string, manifest: Manifest, owned: set<string>)
    returns (found: Expected, faults: seq<Fault>)
    requires ValidBase(b)
    ensures FoundAre(b, manifest, owned, found)
    ensures faults == [] <==> ArtifactOk(b, manifest, owned)
    ensures forall x :: x in faults <==> IsArtifactFault(b, artifact, manifest, owned, x)
  {
    if owned == {} {
      NothingDeclared(b, manifest, owned);
      return map[], if manifest.Absent? then [] else [StrayManifest(artifact)];
    }
    if !manifest.Manifest? {
      NothingDeclared(b, manifest, owned);
      return map[], if manifest.WrongSchema? then [ManifestSchema(artifact)] else [MalformedManifest(artifact)];
    }
    faults := [];
    if manifest.declared.Keys != owned || manifest.otherKeys != 0 {
      faults := [RequirementCatalog(artifact)];
    }
    var more;
    found, more := CheckOwned(b, manifest, owned);
    faults := faults + more;
  }

  // ----- the whole authority

  function Owned(m: Model, artifact: string): set<string>
    requires ValidModel(m)
  {
    set r | r in m.requirements && m.artifactOf[r] == artifact
  }

  /** The manifest responsible for a requirement. */
  function ManifestOf(m: Model, r: string): Manifest
    requires ValidModel(m) && r in m.requirements
  {
    if m.artifactOf[r] in m.manifests then m.manifests[m.artifactOf[r]] else Absent
  }

  ghost predicate ManifestsOk(m: Model, b: Base)
    requires ValidModel(m)
  {
    && (forall a :: a in m.manifests ==> ArtifactOk(b, m.manifests[a], Owned(m, a)))
    && (forall r :: r in m.requirements ==> m.artifactOf[r] in m.manifests)
  }

  /** The expectations are the parsed mappings of the responsible manifests. */
  ghost predicate ExpectationsAre(m: Model, b: Base, done: set<string>, expected: Expected)
    requires ValidModel(m)
  {
    && (forall r :: r in expected <==> r in m.requirements && m.artifactOf[r] in done && Yields(b, ManifestOf(m, r), r))
    && (forall r :: r in expected ==> YieldsThis(b, ManifestOf(m, r), r, expected[r]))
  }

  lemma OneMoreArtifact(m: Model, b: Base, done: set<string>, a: string, expected: Expected, found: Expected)
    requires ValidModel(m) && a in m.manifests && a !in done
    requires ExpectationsAre(m, b, done, expected) && FoundAre(b, m.manifests[a], Owned(m, a), found)
    ensures ExpectationsAre(m, b, done + {a}, expected + found)
  {
    forall r | r in Owned(m, a) ensures ManifestOf(m, r) == m.manifests[a] && r !in expected {}
    forall r
      ensures r in expected + found <==>
                r in m.requirements && m.artifactOf[r] in done + {a} && Yields(b, ManifestOf(m, r), r)
    {
      if r in m.requirements && m.artifactOf[r] == a { assert r in Owned(m, a); }
    }
  }

  ghost predicate IsManifestFault(m: Model, b: Base, artifacts: set<string>, x: Fault)
    requires ValidModel(m) && artifacts <= m.manifests.Keys
  {
    exists a :: a in artifacts && IsArtifactFault(b, a, m.manifests[a], Owned(m, a), x)
  }

  method CheckManifests(m: Model, b: Base) returns (expected: Expected, faults: seq<Fault>)
    requires ValidModel(m) && ValidBase(b)
    ensures ExpectationsAre(m, b, m.manifests.Keys, expected)
    ensures faults == [] <==> forall a :: a in m.manifests ==> ArtifactOk(b, m.manifests[a], Owned(m, a))
    ensures forall x :: x in faults <==> IsManifestFault(m, b, m.manifests.Keys, x)
  {
    expected, faults := map[], [];
    var todo := m.manifests.Keys;
    while todo != {}
      invariant todo <= m.manifests.Keys
      invariant ExpectationsAre(m, b, m.manifests.Keys - todo, expected)
      invariant faults == [] <==>
                forall a :: a in m.manifests.Keys - todo ==> ArtifactOk(b, m.manifests[a], Owned(m, a))
      invariant forall x :: x in faults <==> IsManifestFault(m, b, m.manifests.Keys - todo, x)
      decreases todo
    {
      var a :| a in todo;
      ghost var done := m.manifests.Keys - todo;
      var found, more := CheckArtifact(b, a, m.manifests[a], Owned(m, a));
      OneMoreArtifact(m, b, done, a, expected, found);
      expected := expected + found;
      faults := faults + more;
      todo := todo - {a};
      assert m.manifests.Keys - todo == done + {a};
    }
    assert m.manifests.Keys - todo == m.manifests.Keys;
  }

  /** No fault anywhere in the evidence, the gates and the manifests. */
  ghost predicate AuthorityClean(m: Model, evidence: seq<EvidenceFile>, gates: seq<GateFile>)
    requires ValidModel(m)
  {
    var contracts := Contracts(evidence);
    && m.problems == 0
    && (forall f :: f in evidence ==> SkippedEvidence(f.stem) || GoodEvidence(f))
    && (forall f :: f in gates ==> f.stem == SKIPPED_GATE || GoodGate(f, contracts))
    && ManifestsOk(m, BaseOf(m, contracts, GatesOf(gates, contracts)))
  }

  /** The authority that these inputs give. */
  ghost predicate IsAuthority(m: Model, evidence: seq<EvidenceFile>, gates: seq<GateFile>, a: Authority)
    requires ValidModel(m)
  {
    var contracts := Contracts(evidence);
    var b := BaseOf(m, contracts, GatesOf(gates, contracts));
    && a.requirements == m.requirements
    && (forall k :: a.catalog(k) == b.catalog(k))
    && ExpectationsAre(m, b, m.manifests.Keys, a.expected)
    && (a.problems == 0 <==> AuthorityClean(m, evidence, gates))
  }

  /** The requirements for which no expectation could be derived. */
  ghost function WithoutAuthority(m: Model, b: Base): set<string>
    requires ValidModel(m)
  {
    set r | r in m.requirements && !(m.artifactOf[r] in m.manifests && Yields(b, ManifestOf(m, r), r))
  }

  /** Everything the derivation objects to, besides the problems in the model itself. */
  ghost predicate IsFault(m: Model, evidence: seq<EvidenceFile>, gates: seq<GateFile>, x: Fault)
    requires ValidModel(m)
  {
    var contracts := Contracts(evidence);
    var b := BaseOf(m, contracts, GatesOf(gates, contracts));
    || IsEvidenceFault(evidence, x)
    || IsGateFault(gates, contracts, x)
    || IsManifestFault(m, b, m.manifests.Keys, x)
    || (WithoutAuthority(m, b) != {} && x == MissingAuthority(WithoutAuthority(m, b)))
  }

  /** `_authoritative_definitions` from the decoded files on. */
  method DeriveAuthority(m: Model, evidence: seq<EvidenceFile>, gateFiles: seq<GateFile>)
    returns (a: Authority, faults: seq<Fault>)
    requires ValidModel(m)
    ensures IsAuthority(m, evidence, gateFiles, a) && a.problems == m.problems + |faults|
    ensures forall x :: x in faults <==> IsFault(m, evidence, gateFiles, x)
  {
    var contracts, inEvidence := ReadEvidence(evidence);
    var gates, inGates := ReadGates(gateFiles, contracts);
    var b := BaseOf(m, contracts, gates);
    var expected, inManifests := CheckManifests(m, b);
    var missing := m.requirements - expected.Keys;
    assert missing == WithoutAuthority(m, b);
    faults := inEvidence + inGates + inManifests + if missing != {} then [MissingAuthority(missing)] else [];
    if forall i :: i in m.manifests ==> ArtifactOk(b, m.manifests[i], Owned(m, i)) { NothingMissing(m, b, expected); }
    a := Authority(m.requirements, b.catalog, expected, m.problems + |faults|);
  }

  lemma NothingMissing(m: Model, b: Base, expected: Expected)
    requires ValidModel(m) && ExpectationsAre(m, b, m.manifests.Keys, expected)
    requires forall a :: a in m.manifests ==> ArtifactOk(b, m.manifests[a], Owned(m, a))
    ensures m.requirements - expected.Keys == {} <==> forall r :: r in m.requirements ==> m.artifactOf[r] in m.manifests
  {
    forall r | r in m.requirements && m.artifactOf[r] in m.manifests ensures r in expected {
      var a := m.artifactOf[r];
      assert r in Owned(m, a);
      assert ArtifactOk(b, m.manifests[a], Owned(m, a));
    }
    NothingLeft(m.requirements, expected.Keys);
  }
}

/**
 What the traceability authority takes from the project model: the accepted entities with their
 artifacts and dependencies, and the architecture names of the accepted artifacts.
 */
module ProjectEntities {
  import opened AsciiText
  import opened Counting
  import opened Traceability
  import opened TraceAuthority

  // ----- entities

  datatype EntityKind = Requirement | Milestone | Task | OtherKind
  datatype Entity = Entity(kind: EntityKind, id: Raw, artifact: Raw, dependsOn: RawList)

  /** A name under an accepted artifact. */
  predicate Accepted(e: Entity, accepted: set<string>) {
    e.kind != OtherKind && e.id.Text? && e.artifact.Text? && e.artifact.text in accepted
  }

  /** The names of a kind. */
  function NamesOf(entities: seq<Entity>, accepted: set<string>, kind: EntityKind): set<string> {
    set e | e in entities && Accepted(e, accepted) && e.kind == kind :: e.id.text
  }

  /** A name is of a kind exactly when some entity of that kind declares it under an accepted artifact. */
  lemma NamesOfMean(entities: seq<Entity>, accepted: set<string>, kind: EntityKind, name: string)
    ensures name in NamesOf(entities, accepted, kind) <==>
            kind != OtherKind &&
            exists e, artifact ::
              && e in entities && artifact in accepted
              && e.kind == kind && e.id == Text(name) && e.artifact == Text(artifact)
  {
  }

  function Strings(l: RawList): set<string> {
    if l.NotAList? then {} else set r | r in l.items && r.Text? :: r.text
  }

  /** What counts of a list are its strings; other values in it are passed over. */
  lemma StringsMean(l: RawList, s: string)
    ensures s in Strings(l) <==> l.Items? && Text(s) in l.items
  {
  }

  /** The artifact on record for each name. */
  function ArtifactsOf(entities: seq<Entity>, accepted: set<string>): map<string, string> {
    if entities == [] then map[] else
      var before, e := ArtifactsOf(entities[..|entities| - 1], accepted), entities[|entities| - 1];
      if Accepted(e, accepted) then before[e.id.text := e.artifact.text] else before
  }

  /** An accepted task that lists its dependencies. */
  predicate ListsDependencies(e: Entity, accepted: set<string>) {
    Accepted(e, accepted) && e.kind == Task && e.dependsOn.Items?
  }

  /** The dependencies on record for each task. */
  function DependenciesOf(entities: seq<Entity>, accepted: set<string>): map<string, set<string>> {
    if entities == [] then map[] else
      var before, e := DependenciesOf(entities[..|entities| - 1], accepted), entities[|entities| - 1];
      if ListsDependencies(e, accepted) then before[e.id.text := Strings(e.dependsOn)] else before
  }

  /** No later accepted entity has the name of this one. */
  predicate IsLast(entities: seq<Entity>, accepted: set<string>, k: nat) {
    && k < |entities| && Accepted(entities[k], accepted)
    && forall j :: k < j < |entities| && Accepted(entities[j], accepted) ==> entities[j].id != entities[k].id
  }

  predicate IsLastList(entities: seq<Entity>, accepted: set<string>, k: nat) {
    && k < |entities| && ListsDependencies(entities[k], accepted)
    && forall j :: k < j < |entities| && ListsDependencies(entities[j], accepted) ==> entities[j].id != entities[k].id
  }

  lemma {:induction false} ArtifactOfLast(entities: seq<Entity>, accepted: set<string>, k: nat)
    requires IsLast(entities, accepted, k)
    ensures entities[k].id.text in ArtifactsOf(entities, accepted)
    ensures ArtifactsOf(entities, accepted)[entities[k].id.text] == entities[k].artifact.text
  {
    var n := |entities| - 1;
    if k < n {
      assert forall j :: 0 <= j < n ==> entities[..n][j] == entities[j];
      ArtifactOfLast(entities[..n], accepted, k);
    }
  }

  lemma {:induction false} DependenciesOfLast(entities: seq<Entity>, accepted: set<string>, k: nat)
    requires IsLastList(entities, accepted, k)
    ensures entities[k].id.text in DependenciesOf(entities, accepted)
    ensures DependenciesOf(entities, accepted)[entities[k].id.text] == Strings(entities[k].dependsOn)
  {
    var n := |entities| - 1;
    if k < n {
      assert forall j :: 0 <= j < n ==> entities[..n][j] == entities[j];
      DependenciesOfLast(entities[..n], accepted, k);
    }
  }

  /** A name is on record exactly when some accepted entity declares it, or lists dependencies under it. */
  lemma {:induction false} OnRecordIff(entities: seq<Entity>, accepted: set<string>, id: string)
    ensures id in ArtifactsOf(entities, accepted) <==>
            exists e :: e in entities && Accepted(e, accepted) && e.id.text == id
    ensures id in DependenciesOf(entities, accepted) <==>
            exists e :: e in entities && ListsDependencies(e, accepted) && e.id.text == id
  {
    if entities != [] {
      var n := |entities| - 1;
      OnRecordIff(entities[..n], accepted, id);
      assert entities == entities[..n] + [entities[n]];
    }
  }

  /** A name has an artifact on record if and only if some accepted entity of whatever kind declares it, and then it is
      that of the last one. */
  lemma LastArtifactCounts(entities: seq<Entity>, accepted: set<string>, id: string)
    ensures id in ArtifactsOf(entities, accepted) <==>
            exists e :: e in entities && Accepted(e, accepted) && e.id.text == id
    ensures forall k: nat :: IsLast(entities, accepted, k) && entities[k].id.text == id ==>
              && id in ArtifactsOf(entities, accepted)
              && ArtifactsOf(entities, accepted)[id] == entities[k].artifact.text
  {
    OnRecordIff(entities, accepted, id);
    forall k: nat | IsLast(entities, accepted, k) && entities[k].id.text == id
      ensures id in ArtifactsOf(entities, accepted)
      ensures ArtifactsOf(entities, accepted)[id] == entities[k].artifact.text
    {
      ArtifactOfLast(entities, accepted, k);
    }
  }

  /** A name has dependencies on record if and only if some accepted task of that name lists them, and then they are
      the strings of the last such list. */
  lemma LastDependenciesCount(entities: seq<Entity>, accepted: set<string>, id: string)
    ensures id in DependenciesOf(entities, accepted) <==>
            exists e :: e in entities && ListsDependencies(e, accepted) && e.id.text == id
    ensures forall k: nat :: IsLastList(entities, accepted, k) && entities[k].id.text == id ==>
              && id in DependenciesOf(entities, accepted)
              && DependenciesOf(entities, accepted)[id] == Strings(entities[k].dependsOn)
  {
    OnRecordIff(entities, accepted, id);
    forall k: nat | IsLastList(entities, accepted, k) && entities[k].id.text == id
      ensures id in DependenciesOf(entities, accepted)
      ensures DependenciesOf(entities, accepted)[id] == Strings(entities[k].dependsOn)
    {
      DependenciesOfLast(entities, accepted, k);
    }
  }

  /** Every name of a kind has an artifact on record. */
  lemma NamesHaveArtifacts(entities: seq<Entity>, accepted: set<string>, kind: EntityKind)
    ensures NamesOf(entities, accepted, kind) <= ArtifactsOf(entities, accepted).Keys
  {
    forall id | id in NamesOf(entities, accepted, kind) ensures id in ArtifactsOf(entities, accepted) {
      var e :| e in entities && Accepted(e, accepted) && e.kind == kind && e.id.text == id;
      OnRecordIff(entities, accepted, id);
    }
  }

  lemma OneMoreEntity(entities: seq<Entity>, e: Entity, accepted: set<string>, kind: EntityKind)
    ensures NamesOf(entities + [e], accepted, kind) ==
            NamesOf(entities, accepted, kind) + if Accepted(e, accepted) && e.kind == kind then {e.id.text} else {}
  {
    assert forall d :: d in entities + [e] <==> d in entities || d == e;
  }

  /** The loop over the entities. */
  method ScanEntities(entities: seq<Entity>, accepted: set<string>)
    returns (requirements: set<string>, milestones: set<string>, tasks: set<string>,
             artifactOf: map<string, string>, dependencies: map<string, set<string>>)
    ensures requirements == NamesOf(entities, accepted, Requirement)
    ensures milestones == NamesOf(entities, accepted, Milestone)
    ensures tasks == NamesOf(entities, accepted, Task)
    ensures artifactOf == ArtifactsOf(entities, accepted)
    ensures dependencies == DependenciesOf(entities, accepted)
  {
    requirements, milestones, tasks, artifactOf, dependencies := {}, {}, {}, map[], map[];
    for k := 0 to |entities|
      invariant requirements == NamesOf(entities[..k], accepted, Requirement)
      invariant milestones == NamesOf(entities[..k], accepted, Milestone)
      invariant tasks == NamesOf(entities[..k], accepted, Task)
      invariant artifactOf == ArtifactsOf(entities[..k], accepted)
      invariant dependencies == DependenciesOf(entities[..k], accepted)
    {
      var e := entities[k];
      assert entities[..k + 1] == entities[..k] + [e] && entities[..k + 1][..k] == entities[..k];
      OneMoreEntity(entities[..k], e, accepted, Requirement);
      OneMoreEntity(entities[..k], e, accepted, Milestone);
      OneMoreEntity(entities[..k], e, accepted, Task);
      if Accepted(e, accepted) {
        var id := e.id.text;
        match e.kind {
          case Requirement => requirements := requirements + {id};
          case Milestone => milestones := milestones + {id};
          case Task => tasks := tasks + {id};
        }
        artifactOf := artifactOf[id := e.artifact.text];
        if e.kind == Task && e.dependsOn.Items? {
          dependencies := dependencies[id := Strings(e.dependsOn)];
        }
      }
    }
    assert entities[..|entities|] == entities;
  }

  // ----- architecture

  /** A list of different names that are not blank and that normalisation keeps apart. */
  ghost predicate GoodComponents(l: RawList) {
    var names := Names(l);
    && names.Some? && Distinct(names.value)
    && (forall n :: n in names.value ==> TrimStart(n) != "")
    && InjectiveOn(Elements(names.value), Normal(Architecture))
  }

  /** The normalised names of all good component lists. */
  ghost function ArchitectureOf(lists: seq<RawList>): set<string> {
    set l, n | l in lists && GoodComponents(l) && n in Names(l).value :: Normal(Architecture)(n)
  }

  /** A component list that is not good; artifacts without a list are passed over. */
  ghost predicate IsBadList(l: RawList) {
    l.Items? && !GoodComponents(l)
  }

  method CheckComponents(l: RawList) returns (ok: bool, names: set<string>)
    ensures ok <==> GoodComponents(l)
    ensures ok ==> names == Image(Elements(Names(l).value), Normal(Architecture))
  {
    names := {};
    var listed := Names(l);
    if listed.None? {
      return false, names;
    }
    DistinctIffAllCounted(listed.value);
    if (exists k :: 0 <= k < |listed.value| && TrimStart(listed.value[k]) == "") ||
       |Elements(listed.value)| != |listed.value| {
      return false, names;
    }
    names := Image(Elements(listed.value), Normal(Architecture));
    ImageSize(Elements(listed.value), Normal(Architecture));
    ok := |names| == |listed.value|;
  }

  /** The loop over the component lists of the accepted artifacts. */
  method CollectArchitecture(lists: seq<RawList>) returns (architecture: set<string>, problems: nat)
    ensures architecture == ArchitectureOf(lists)
    ensures problems == Count(lists, l => IsBadList(l))
  {
    architecture, problems := {}, 0;
    for k := 0 to |lists|
      invariant architecture == ArchitectureOf(lists[..k])
      invariant problems == Count(lists[..k], l => IsBadList(l))
    {
      OneMoreList(lists[..k], lists[k]);
      assert lists[..k + 1] == lists[..k] + [lists[k]];
      if lists[k].Items? {
        var ok, names := CheckComponents(lists[k]);
        if ok {
          architecture := architecture + names;
        } else {
          problems := problems + 1;
        }
      }
    }
    assert lists[..|lists|] == lists;
  }

  lemma OneMoreList(lists: seq<RawList>, l: RawList)
    ensures ArchitectureOf(lists + [l]) ==
            ArchitectureOf(lists) +
            if GoodComponents(l) then Image(Elements(Names(l).value), Normal(Architecture)) else {}
  {
    assert forall m :: m in lists + [l] <==> m in lists || m == l;
  }

  // ----- the authority of a project

  /** The model is what the project's entities, component lists and manifests give. */
  ghost predicate IsModel(m: Model, entities: seq<Entity>, accepted: set<string>, components: seq<RawList>,
                          manifests: map<string, Manifest>)
  {
    && m.requirements == NamesOf(entities, accepted, Requirement)
    && m.milestones == NamesOf(entities, accepted, Milestone)
    && m.tasks == NamesOf(entities, accepted, Task)
    && m.artifactOf == ArtifactsOf(entities, accepted)
    && m.dependencies == DependenciesOf(entities, accepted)
    && m.architecture == ArchitectureOf(components)
    && m.manifests == manifests
    && m.problems == Count(components, l => IsBadList(l))
  }

  lemma ProjectModelIsValid(m: Model, entities: seq<Entity>, accepted: set<string>, components: seq<RawList>,
                            manifests: map<string, Manifest>)
    requires IsModel(m, entities, accepted, components, manifests)
    ensures ValidModel(m)
  {
    NamesHaveArtifacts(entities, accepted, Requirement);
  }

  /** `_authoritative_definitions` from the decoded project model and files on. */
  method DeriveFromProject(entities: seq<Entity>, accepted: set<string>, components: seq<RawList>,
                           manifests: map<string, Manifest>, evidence: seq<EvidenceFile>, gates: seq<GateFile>)
    returns (a: Authority, m: Model, faults: seq<Fault>)
    ensures IsModel(m, entities, accepted, components, manifests)
    ensures ValidModel(m) && IsAuthority(m, evidence, gates, a) && a.problems == m.problems + |faults|
    ensures forall x :: x in faults <==> IsFault(m, evidence, gates, x)
  {
    var requirements, milestones, tasks, artifactOf, dependencies := ScanEntities(entities, accepted);
    var architecture, problems := CollectArchitecture(components);
    m := Model(requirements, milestones, tasks, artifactOf, dependencies, architecture, manifests, problems);
    ProjectModelIsValid(m, entities, accepted, components, manifests);
    a, faults := DeriveAuthority(m, evidence, gates);
  }
}

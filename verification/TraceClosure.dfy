/** What a passing traceability report guarantees about evidence, gates, contracts and milestones. */
module TraceClosure {
  import opened Options
  import opened Counting
  import opened RequirementKeys
  import opened TraceScan
  import opened Traceability
  import opened TraceAuthority

  /** The document maps a requirement to a name. */
  ghost predicate MapsTo(doc: Document, k: Kind, r: string, x: string) {
    MapOf(doc, k).Entries? && exists e :: e in MapOf(doc, k).entries && Covers(e.key, r) && x in OwnersOf(Parse(e))
  }

  /** A gate file of this name that passed, with a target and required evidence under one contract. */
  ghost predicate IsGate(f: GateFile, name: string, target: string, hash: string) {
    && f.stem == name && f.content.Some?
    && f.content.value.id == Text(name) && f.content.value.state == Text("PASS")
    && f.content.value.target == Text(target) && f.content.value.contract == Text(hash) && |hash| == 64
    && Required(f.content.value).Some?
  }

  /** An evidence file of this name with a passing outcome under the contract. */
  ghost predicate IsEvidence(v: EvidenceFile, name: string, hash: string) {
    && v.stem == name && v.content.Some?
    && v.content.value.id == Text(name) && v.content.value.outcome == Text("PASS")
    && v.content.value.contract == Text(hash) && |hash| == 64
  }

  ghost predicate HasEvidence(evidence: seq<EvidenceFile>, name: string, hash: string) {
    exists v :: v in evidence && IsEvidence(v, name, hash)
  }

  /** The gate exists, its target is a milestone that owns the requirement, and each evidence it requires passed under
      its contract and is mapped to the requirement. */
  ghost predicate GateCloses(doc: Document, evidence: seq<EvidenceFile>, gates: seq<GateFile>, r: string, g: string) {
    exists f, target, hash :: f in gates && IsGate(f, g, target, hash) && MapsTo(doc, Ownership, r, target) &&
      forall x :: x in Required(f.content.value).value ==> HasEvidence(evidence, x, hash) && MapsTo(doc, Evidence, r, x)
  }

  /** Some gate of the requirement requires the evidence, which passed under that gate's contract. */
  ghost predicate EvidenceCloses(doc: Document, evidence: seq<EvidenceFile>, gates: seq<GateFile>, r: string, x: string)
  {
    exists f, target, hash :: f in gates && IsGate(f, f.stem, target, hash) && MapsTo(doc, Gates, r, f.stem) &&
      x in Required(f.content.value).value && HasEvidence(evidence, x, hash)
  }

  /** The task's name begins with that of a milestone that owns the requirement, alone or followed by `-T`, and where
      the task has dependencies on record one of them is such a milestone. */
  ghost predicate TaskCloses(doc: Document, dependencies: map<string, set<string>>, r: string, t: string) {
    && (exists m :: MapsTo(doc, Ownership, r, m) && (t == m || m + "-T" <= t))
    && (t in dependencies && dependencies[t] != {} ==> exists d :: d in dependencies[t] && MapsTo(doc, Ownership, r, d))
  }

  // ----- from the report to the authority

  lemma IdentityImage(xs: set<string>, f: string -> string)
    requires forall x :: f(x) == x
    ensures Image(xs, f) == xs
  {
    forall x | x in xs ensures x in Image(xs, f) { assert f(x) in Image(xs, f); }
  }

  lemma CoverExists(entries: seq<Entry>, accepted: set<string>, r: string) returns (e: Entry)
    requires Partitioned(Parts(entries), accepted) && r in accepted
    ensures e in entries && Covers(e.key, r)
  {
    CountOfParts(entries, r);
    CountMeans(entries, Covering(r));
    assert forall d: Entry :: Covering(r)(d) == Covers(d.key, r);
    e :| e in entries && Covering(r)(e);
  }

  /** In a passing document the names of a requirement are the expected ones. */
  lemma MapsToExpected(doc: Document, a: Authority, k: Kind, r: string, x: string)
    requires MapPasses(doc, a, k) && r in a.requirements && k != Architecture
    ensures MapsTo(doc, k, r, x) <==> x in ExpectedFor(a, k, r)
  {
    var entries, c := MapOf(doc, k).entries, TargetOf(doc, a, k);
    OwnersMean(entries, c);
    forall e | e in entries && Covers(e.key, r) ensures OwnersOf(Parse(e)) == ExpectedFor(a, k, r) {
      IdentityImage(OwnersOf(Parse(e)), c.normal);
      assert NormalOwners(e, c.normal) == c.expected(r);
    }
    var e := CoverExists(entries, a.requirements, r);
  }

  // ----- from the authority to the files

  /** A clean authority gives every requirement a parsed mapping with closed links. */
  lemma ExpectedIsLinked(m: Model, b: Base, r: string, expected: Expected)
    requires ValidModel(m) && ManifestsOk(m, b) && ExpectationsAre(m, b, m.manifests.Keys, expected)
    requires r in m.requirements
    ensures r in expected && (forall k: Kind :: k in expected[r]) && expected[r][Gates] <= b.gates.Keys
    ensures Linked(b, expected[r])
  {
    var manifest := ManifestOf(m, r);
    assert r in Owned(m, m.artifactOf[r]);
    assert ArtifactOk(b, manifest, Owned(m, m.artifactOf[r]));
    assert DeclaredOk(b, manifest, r);
    var values := Declared(manifest, r).values;
    var p :| ParsesTo(b, values, p) && p[Gates] <= b.gates.Keys && Linked(b, p);
    assert r in expected && YieldsThis(b, manifest, r, expected[r]);
    ParsedOnce(b, values, p, expected[r]);
  }

  /** Derived expectations stay within the catalogs. */
  lemma ExpectedIsKnown(m: Model, evidence: seq<EvidenceFile>, gates: seq<GateFile>, a: Authority, k: Kind, r: string)
    requires ValidModel(m) && IsAuthority(m, evidence, gates, a)
    ensures ExpectedFor(a, k, r) <= a.catalog(k)
  {
    var contracts := Contracts(evidence);
    var b := BaseOf(m, contracts, GatesOf(gates, contracts));
    if r in a.expected {
      var values := Declared(ManifestOf(m, r), r).values;
      assert YieldsThis(b, ManifestOf(m, r), r, a.expected[r]);
      assert Parsed(b, values, k) == Some(a.expected[r][k]);
    }
  }

  lemma GateIsGate(files: seq<GateFile>, contracts: map<string, string>, g: string) returns (f: GateFile)
    requires g in GatesOf(files, contracts)
    ensures f in files && f.stem == g && GoodGate(f, contracts)
    ensures IsGate(f, g, GatesOf(files, contracts)[g].target, f.content.value.contract.text)
    ensures GatesOf(files, contracts)[g].required == Elements(Required(f.content.value).value)
  {
    f := GateComesFrom(files, contracts, g);
  }

  lemma RequiredIsEvidence(evidence: seq<EvidenceFile>, f: GateFile, x: string)
    requires GoodGate(f, Contracts(evidence)) && x in Required(f.content.value).value
    ensures HasEvidence(evidence, x, f.content.value.contract.text)
  {
    var v := ContractComesFrom(evidence, x);
    assert IsEvidence(v, x, f.content.value.contract.text);
  }

  /**
   A passing report closes the whole chain.  For every accepted requirement, every gate mapped to it
   is a passed gate whose target is a milestone that owns the requirement and whose evidence is all
   mapped to it, every evidence mapped to it is required by one of these gates and passed under that
   gate's contract, and every task mapped to it belongs to one of its milestones and depends on one.
   */
  lemma PassingReportCloses(m: Model, evidence: seq<EvidenceFile>, gates: seq<GateFile>, a: Authority, doc: Document,
                            documented: set<string>, r: string)
    requires ValidModel(m) && IsAuthority(m, evidence, gates, a)
    requires Passes(doc, a, documented) && r in m.requirements
    ensures forall g :: MapsTo(doc, Gates, r, g) ==> GateCloses(doc, evidence, gates, r, g)
    ensures forall x :: MapsTo(doc, Evidence, r, x) ==> EvidenceCloses(doc, evidence, gates, r, x)
    ensures forall t :: MapsTo(doc, Tasks, r, t) ==> TaskCloses(doc, m.dependencies, r, t)
  {
    AllPass(doc, a, documented);
    var b := CleanBase(m, evidence, gates, a);
    ExpectedIsLinked(m, b, r, a.expected);
    NamesAreExpected(doc, a, r);
    GatesClose(doc, evidence, gates, r, b, a.expected[r]);
    EvidenceIsClosed(doc, evidence, gates, r, b, a.expected[r]);
    TasksClose(doc, r, b, a.expected[r]);
  }

  /** What the project model and the files declare of each kind. */
  ghost predicate IsDeclared(m: Model, evidence: seq<EvidenceFile>, gates: seq<GateFile>, k: Kind, name: string) {
    match k
    case Architecture => name in m.architecture
    case Ownership => name in m.milestones
    case Tasks => name in m.tasks
    case Evidence => exists f :: f in evidence && f.stem == name && UsesEvidence(f)
    case Gates => exists f :: f in gates && f.stem == name && f.stem != SKIPPED_GATE && GoodGate(f, Contracts(evidence))
  }

  lemma {:induction false} ContractOnRecord(files: seq<EvidenceFile>, name: string)
    ensures name in Contracts(files) <==> exists f :: f in files && f.stem == name && UsesEvidence(f)
  {
    if files != [] {
      var front, last := files[..|files| - 1], files[|files| - 1];
      ContractOnRecord(front, name);
      assert files == front + [last];
    }
  }

  lemma {:induction false} GateOnRecord(files: seq<GateFile>, contracts: map<string, string>, name: string)
    ensures name in GatesOf(files, contracts) <==>
            exists f :: f in files && f.stem == name && f.stem != SKIPPED_GATE && GoodGate(f, contracts)
  {
    if files != [] {
      var front, last := files[..|files| - 1], files[|files| - 1];
      GateOnRecord(front, contracts, name);
      assert files == front + [last];
    }
  }

  lemma CatalogIsDeclared(m: Model, evidence: seq<EvidenceFile>, gates: seq<GateFile>, a: Authority, k: Kind,
                          name: string)
    requires ValidModel(m) && IsAuthority(m, evidence, gates, a)
    ensures name in a.catalog(k) <==> IsDeclared(m, evidence, gates, k, name)
  {
    ContractOnRecord(evidence, name);
    GateOnRecord(gates, Contracts(evidence), name);
    var b := BaseOf(m, Contracts(evidence), GatesOf(gates, Contracts(evidence)));
    assert a.catalog(k) == b.catalog(k);
  }

  /**
   In a passing report the definitions of each kind are exactly what is declared of it, and whatever a
   requirement is mapped to is declared, architecture names in their normal form.
   */
  lemma MappedNamesAreDeclared(m: Model, evidence: seq<EvidenceFile>, gates: seq<GateFile>, a: Authority,
                               doc: Document, documented: set<string>, k: Kind, name: string)
    requires ValidModel(m) && IsAuthority(m, evidence, gates, a) && Passes(doc, a, documented)
    ensures Names(CatalogOf(doc, k)).Some?
    ensures IsDeclared(m, evidence, gates, k, name) <==>
            exists x :: x in Names(CatalogOf(doc, k)).value && Normal(k)(x) == name
    ensures forall r :: r in m.requirements && MapsTo(doc, k, r, name) ==>
              IsDeclared(m, evidence, gates, k, Normal(k)(name))
  {
    AllPass(doc, a, documented);
    assert MapPasses(doc, a, k);
    var c := TargetOf(doc, a, k);
    assert CatalogOk(c) && ReferencesKnown(Parts(MapOf(doc, k).entries), c);
    CatalogIsDeclared(m, evidence, gates, a, k, name);
    CatalogIsDeclared(m, evidence, gates, a, k, Normal(k)(name));
    forall r | MapsTo(doc, k, r, name) ensures Normal(k)(name) in a.catalog(k) {
      var e :| e in MapOf(doc, k).entries && Covers(e.key, r) && name in OwnersOf(Parse(e));
      PartsAre(MapOf(doc, k).entries);
      assert Mentioned(Parts(MapOf(doc, k).entries), name);
    }
  }

  lemma AllPass(doc: Document, a: Authority, documented: set<string>)
    requires Passes(doc, a, documented)
    ensures a.problems == 0 && forall k :: MapPasses(doc, a, k)
  {
  }

  lemma CleanBase(m: Model, evidence: seq<EvidenceFile>, gates: seq<GateFile>, a: Authority) returns (b: Base)
    requires ValidModel(m) && IsAuthority(m, evidence, gates, a) && a.problems == 0
    ensures ManifestsOk(m, b) && ExpectationsAre(m, b, m.manifests.Keys, a.expected)
    ensures a.requirements == m.requirements && b.gates == GatesOf(gates, Contracts(evidence))
    ensures b.dependencies == m.dependencies
  {
    b := BaseOf(m, Contracts(evidence), GatesOf(gates, Contracts(evidence)));
  }

  /** `p` holds the names that the document maps the requirement to. */
  ghost predicate NamesAre(doc: Document, r: string, k: Kind, p: map<Kind, set<string>>) {
    k in p && forall x :: MapsTo(doc, k, r, x) <==> x in p[k]
  }

  lemma NamesAreExpected(doc: Document, a: Authority, r: string)
    requires forall k :: MapPasses(doc, a, k)
    requires r in a.requirements && r in a.expected && forall k: Kind :: k in a.expected[r]
    ensures forall k: Kind :: k != Architecture ==> NamesAre(doc, r, k, a.expected[r])
  {
    forall k: Kind, x | k != Architecture ensures MapsTo(doc, k, r, x) <==> x in a.expected[r][k] {
      MapsToExpected(doc, a, k, r, x);
    }
  }

  lemma TasksClose(doc: Document, r: string, b: Base, p: map<Kind, set<string>>)
    requires (forall k: Kind :: k in p) && p[Gates] <= b.gates.Keys && Linked(b, p)
    requires NamesAre(doc, r, Tasks, p) && NamesAre(doc, r, Ownership, p)
    ensures forall t :: MapsTo(doc, Tasks, r, t) ==> TaskCloses(doc, b.dependencies, r, t)
  {
    forall t | MapsTo(doc, Tasks, r, t) ensures TaskCloses(doc, b.dependencies, r, t) {
      TaskFitsMeans(t, p[Ownership], b.dependencies);
      var m :| m in p[Ownership] && BelongsTo(t, m);
      assert MapsTo(doc, Ownership, r, m);
      if t in b.dependencies && b.dependencies[t] != {} {
        var d :| d in b.dependencies[t] && d in p[Ownership];
        assert MapsTo(doc, Ownership, r, d);
      }
    }
  }

  lemma EvidenceIsClosed(doc: Document, evidence: seq<EvidenceFile>, gates: seq<GateFile>, r: string, b: Base,
                         p: map<Kind, set<string>>)
    requires b.gates == GatesOf(gates, Contracts(evidence))
    requires (forall k: Kind :: k in p) && p[Gates] <= b.gates.Keys && Linked(b, p)
    requires NamesAre(doc, r, Gates, p) && NamesAre(doc, r, Evidence, p)
    ensures forall x :: MapsTo(doc, Evidence, r, x) ==> EvidenceCloses(doc, evidence, gates, r, x)
  {
    forall x | MapsTo(doc, Evidence, r, x) ensures EvidenceCloses(doc, evidence, gates, r, x) {
      var g :| g in p[Gates] && x in b.gates[g].required;
      var f := GateIsGate(gates, Contracts(evidence), g);
      assert x in Elements(Required(f.content.value).value);
      RequiredIsEvidence(evidence, f, x);
      assert MapsTo(doc, Gates, r, f.stem);
    }
  }

  lemma GatesClose(doc: Document, evidence: seq<EvidenceFile>, gates: seq<GateFile>, r: string, b: Base,
                   p: map<Kind, set<string>>)
    requires b.gates == GatesOf(gates, Contracts(evidence))
    requires (forall k: Kind :: k in p) && p[Gates] <= b.gates.Keys && Linked(b, p)
    requires NamesAre(doc, r, Gates, p) && NamesAre(doc, r, Evidence, p) && NamesAre(doc, r, Ownership, p)
    ensures forall g :: MapsTo(doc, Gates, r, g) ==> GateCloses(doc, evidence, gates, r, g)
  {
    forall g | MapsTo(doc, Gates, r, g) ensures GateCloses(doc, evidence, gates, r, g) {
      var f := GateIsGate(gates, Contracts(evidence), g);
      forall x | x in Required(f.content.value).value
        ensures HasEvidence(evidence, x, f.content.value.contract.text) && MapsTo(doc, Evidence, r, x)
      {
        RequiredIsEvidence(evidence, f, x);
        assert x in b.gates[g].required && x in RequiredBy(b.gates, p[Gates]);
      }
      assert MapsTo(doc, Ownership, r, b.gates[g].target);
    }
  }

  lemma DerivedIsInOrder(m: Model, evidence: seq<EvidenceFile>, gates: seq<GateFile>, a: Authority, doc: Document)
    requires ValidModel(m) && IsAuthority(m, evidence, gates, a) && AuthorityClean(m, evidence, gates)
    requires forall k :: CatalogOk(TargetOf(doc, a, k))
    ensures AuthorityInOrder(doc, a) && a.requirements == m.requirements
  {
    forall k, r ensures ExpectedFor(a, k, r) <= a.catalog(k) { ExpectedIsKnown(m, evidence, gates, a, k, r); }
  }

  /** The verdict theorem for a derived authority: clean inputs and exact catalogs leave exactly the maps and the
      metrics to judge. */
  lemma DerivedVerdict(m: Model, evidence: seq<EvidenceFile>, gates: seq<GateFile>, a: Authority, doc: Document)
    requires ValidModel(m) && IsAuthority(m, evidence, gates, a) && AuthorityClean(m, evidence, gates)
    requires doc.headerOk && KeysExact(doc.definitions, CATALOG_KEYS) && KeysExact(doc.maps, MAP_KEYS)
    requires forall k :: CatalogOk(TargetOf(doc, a, k))
    ensures Passes(doc, a, a.requirements) <==>
      && (forall k :: MapIsRight(doc, a, k))
      && doc.metrics == Some(FullMetrics(|a.requirements|))
  {
    DerivedIsInOrder(m, evidence, gates, a, doc);
    PassesIffMapsAreRight(doc, a, a.requirements);
  }
}

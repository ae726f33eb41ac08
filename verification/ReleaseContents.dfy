/**
 What the release artifacts hold and state, file by file under their own names: the bridge from the
 plans that builder and verifier share to the candidate commit.
 */
module ReleaseContents {
  import opened Options
  import opened ByteText
  import opened ArchivePlan
  import opened WheelNames
  import opened WheelPlan
  import opened WheelVerifier
  import opened ReleaseWheel
  import ReleaseSdist

  // ----- the provenance statement

  /** The statement names the kind, the candidate and its fingerprint, the toolchain, and the hash of every source. */
  ghost predicate States(t: Tools, c: Candidate, s: Statement, kind: string, fingerprint: string,
                         isSource: string -> bool)
  {
    && s.schemaVersion == "1.0" && s.kind == kind && s.toolchain == "hatchling==1.27.0"
    && s.commit == c.commit && s.fingerprint == fingerprint
    && (forall n :: n in s.hashes <==> n in c.repository && isSource(n))
    && (forall n :: n in s.hashes ==> s.hashes[n] == t.hex(t.lib.sha(c.repository[n])))
  }

  /** The sources of a wheel: the project file, the schema and the package. */
  predicate IsWheelSource(n: string) {
    n == "pyproject.toml" || n == "schemas/acceptance-evidence.schema.json" || "src/artifex/" <= n
  }

  lemma WheelStates(t: Tools, c: Candidate, fingerprint: string)
    ensures States(t, c, WheelStatement(t, c, fingerprint), "wheel", fingerprint, n => IsWheelSource(n))
  {
  }

  lemma SdistStates(t: Tools, c: Candidate, fingerprint: string)
    ensures States(t, c, ReleaseSdist.SdistStatement(t, c, fingerprint), "sdist", fingerprint, n => true)
  {
  }

  /** Where hashes do not collide, one statement belongs to one commit with one content of every source. */
  lemma StatementTells(t: Tools, c: Candidate, d: Candidate, s: Statement, kind: string, other: string, f: string,
                       g: string, isSource: string -> bool)
    requires forall a, b :: t.hex(t.lib.sha(a)) == t.hex(t.lib.sha(b)) ==> a == b
    requires States(t, c, s, kind, f, isSource) && States(t, d, s, other, g, isSource)
    ensures kind == other && f == g && c.commit == d.commit
    ensures forall n :: isSource(n) ==> (n in c.repository <==> n in d.repository)
    ensures forall n :: isSource(n) && n in c.repository ==> c.repository[n] == d.repository[n]
  {
    forall n | isSource(n) ensures n in c.repository <==> n in d.repository {
      assert n in s.hashes <==> n in c.repository && isSource(n);
      assert n in s.hashes <==> n in d.repository && isSource(n);
    }
    forall n | isSource(n) && n in c.repository ensures c.repository[n] == d.repository[n] {
      assert n in s.hashes;
    }
  }

  // ----- the wheel

  const METADATA := Dist("METADATA")
  const WHEEL := Dist("WHEEL")
  const ENTRY_POINTS := Dist("entry_points.txt")
  const WHEEL_LICENSE := Dist("licenses/LICENSE")
  const WHEEL_PROVENANCE := Dist("artifex-release-provenance.json")
  const RECORD := Dist("RECORD")

  lemma NamesOfDist()
    ensures
      var N := Release();
      && N.dist(Metadata) == METADATA && N.dist(Wheel) == WHEEL && N.dist(EntryPoints) == ENTRY_POINTS
      && N.dist(License) == WHEEL_LICENSE && N.dist(Provenance) == WHEEL_PROVENANCE && N.dist(Record) == RECORD
  {
  }

  /** The file is there, with this content. */
  predicate HoldsFile(files: FileMap, name: string, content: Bytes) {
    name in files && files[name] == content
  }

  /** The metadata files of the candidate, under their names. */
  predicate HoldsMetadata(c: Candidate, files: FileMap) {
    && HoldsFile(files, METADATA, c.metadata)
    && HoldsFile(files, WHEEL, c.wheelMetadata)
    && HoldsFile(files, ENTRY_POINTS, c.entryPoints)
    && ("LICENSE" in c.repository ==> HoldsFile(files, WHEEL_LICENSE, c.repository["LICENSE"]))
  }

  /** The package of the candidate: every file under `src/artifex/`, and the schema, without the `src/`. */
  ghost predicate HoldsPackage(c: Candidate, files: FileMap) {
    && (forall x: string :: PACKAGE + x in c.repository ==>
          HoldsFile(files, Under(x), c.repository[PACKAGE + x]))
    && (SCHEMA in c.repository ==> HoldsFile(files, Under(SCHEMA), c.repository[SCHEMA]))
  }

  lemma MetadataHeld(t: Tools, c: Candidate, files: FileMap)
    requires forall x: DistName :: !x.Provenance? && Content(t, c, x).Some? ==>
                           HoldsFile(files, Release().dist(x), Content(t, c, x).value)
    ensures HoldsMetadata(c, files)
  {
    NamesOfDist();
    assert Content(t, c, Metadata) == Some(c.metadata) && Content(t, c, Wheel) == Some(c.wheelMetadata);
    assert Content(t, c, EntryPoints) == Some(c.entryPoints);
    assert "LICENSE" in c.repository ==> Content(t, c, License) == Some(c.repository["LICENSE"]);
  }

  lemma ContentsHeld(t: Tools, c: Candidate, files: FileMap)
    requires
      var content := PartsOf(t, c).content;
      forall x: DistName :: !x.Provenance? && content(x).Some? ==>
          HoldsFile(files, Release().dist(x), content(x).value)
    ensures HoldsMetadata(c, files)
  {
    assert forall x: DistName :: PartsOf(t, c).content(x) == Content(t, c, x);
    MetadataHeld(t, c, files);
  }

  lemma PackageHeld(t: Tools, c: Candidate, files: FileMap)
    requires SourcesFit(Release(), PartsOf(t, c), files)
    ensures HoldsPackage(c, files)
  {
    var w := PartsOf(t, c);
    forall x: string | PACKAGE + x in c.repository
      ensures HoldsFile(files, Under(x), c.repository[PACKAGE + x])
    {
      PackOf(x);
      assert PACKAGE + x in w.sources;
    }
    if SCHEMA in c.repository { assert SCHEMA in w.sources && Pack(SCHEMA) == Under(SCHEMA); }
  }

  /** A statement of this candidate. */
  ghost predicate HoldsStatement(t: Tools, c: Candidate, files: FileMap, fingerprint: string) {
    && WHEEL_PROVENANCE in files
    && t.load(files[WHEEL_PROVENANCE]).Some?
    && States(t, c, t.load(files[WHEEL_PROVENANCE]).value, "wheel", fingerprint, n => IsWheelSource(n))
  }

  lemma StatementHeld(t: Tools, c: Candidate, files: FileMap, fingerprint: string)
    requires WHEEL_PROVENANCE in files && t.load(files[WHEEL_PROVENANCE]) == Some(WheelStatement(t, c, fingerprint))
    ensures HoldsStatement(t, c, files, fingerprint)
  {
    WheelStates(t, c, fingerprint);
  }

  /** The verdict by its parts. */
  lemma AcceptedParts(k: Checks, lib: Library, N: Naming, w: Parts, archive: Archive)
    requires Accepts(k, lib, N, w, archive)
    ensures
      var files := FilesOf(archive);
      && (forall x: DistName :: !x.Provenance? && w.content(x).Some? ==>
            HoldsFile(files, N.dist(x), w.content(x).value))
      && SourcesFit(N, w, files)
      && N.dist(Provenance) in files && k.provenanceOk(files[N.dist(Provenance)])
      && files.Keys == ExpectedNames(N, w)
  {
  }

  lemma CheckedStatement(t: Tools, c: Candidate, fingerprint: string, digest: string, raw: Bytes)
    requires ChecksFor(t, c, fingerprint, digest).provenanceOk(raw)
    ensures t.hex(t.lib.sha(raw)) == digest && t.load(raw) == Some(WheelStatement(t, c, fingerprint))
  {
  }

  lemma AcceptedStatement(t: Tools, c: Candidate, fingerprint: string, digest: string, files: FileMap)
    requires Release().dist(Provenance) in files
    requires ChecksFor(t, c, fingerprint, digest).provenanceOk(files[Release().dist(Provenance)])
    ensures HoldsStatement(t, c, files, fingerprint) && t.hex(t.lib.sha(files[WHEEL_PROVENANCE])) == digest
  {
    ProvenanceName();
    CheckedStatement(t, c, fingerprint, digest, files[WHEEL_PROVENANCE]);
    StatementHeld(t, c, files, fingerprint);
  }

  /**
   Whatever wheel is accepted, built by whom ever: under their own names it holds the candidate's
   metadata, license and package, and a statement of this candidate under the recorded digest.
   */
  lemma AcceptedWheelHolds(t: Tools, c: Candidate, fingerprint: string, digest: string, archive: Archive)
    requires AcceptsWheel(t, c, fingerprint, digest, archive)
    ensures HoldsMetadata(c, FilesOf(archive)) && HoldsPackage(c, FilesOf(archive))
    ensures HoldsStatement(t, c, FilesOf(archive), fingerprint)
    ensures t.hex(t.lib.sha(FilesOf(archive)[WHEEL_PROVENANCE])) == digest
  {
    AcceptedParts(ChecksFor(t, c, fingerprint, digest), t.lib, Release(), PartsOf(t, c), archive);
    AcceptedStatement(t, c, fingerprint, digest, FilesOf(archive));
    PackageHeld(t, c, FilesOf(archive));
    ContentsHeld(t, c, FilesOf(archive));
  }

  lemma ProvenanceName()
    ensures Release().dist(Provenance) == WHEEL_PROVENANCE
  {
  }

  /** The finalised wheel of a candidate holds all of this; of two different schemas it can hold only one. */
  lemma ReleasedWheelHolds(t: Tools, c: Candidate)
    requires LawfulTools(t) && ValidCandidate(c)
    ensures HoldsMetadata(c, FilesOf(ReleasedWheel(t, c)))
    ensures OneSchema(c) ==> HoldsPackage(c, FilesOf(ReleasedWheel(t, c)))
    ensures HoldsStatement(t, c, FilesOf(ReleasedWheel(t, c)), c.fingerprint)
  {
    PartsAreValid(t, c);
    ConsistentIffOneSchema(t, c);
    CanonicalParts(t.lib, Release(), PartsOf(t, c));
    PartsHeld(t, c, FilesOf(ReleasedWheel(t, c)));
  }

  lemma PartsHeld(t: Tools, c: Candidate, files: FileMap)
    requires LawfulTools(t)
    requires
      var content := PartsOf(t, c).content;
      forall x: DistName :: content(x).Some? ==> HoldsFile(files, Release().dist(x), content(x).value)
    ensures HoldsMetadata(c, files) && HoldsStatement(t, c, files, c.fingerprint)
    ensures SourcesFit(Release(), PartsOf(t, c), files) ==> HoldsPackage(c, files)
  {
    ContentsHeld(t, c, files);
    assert PartsOf(t, c).content(Provenance) == Some(t.dump(WheelStatement(t, c, c.fingerprint)));
    BuiltStatement(t, c, files);
    if SourcesFit(Release(), PartsOf(t, c), files) { PackageHeld(t, c, files); }
  }

  lemma CanonicalParts(lib: Library, N: Naming, w: Parts)
    requires ValidParts(N, w)
    ensures
      var files := FilesOf(CanonicalWheel(lib, N, w));
      && (forall x: DistName :: w.content(x).Some? ==> HoldsFile(files, N.dist(x), w.content(x).value))
      && (Consistent(N, w) ==> SourcesFit(N, w, files))
  {
    CanonicalNames(lib, N, w);
    CanonicalShape(lib, N, w);
    SourcesFitIffConsistent(N, w, CanonicalContent(lib, N, w));
  }

  lemma BuiltStatement(t: Tools, c: Candidate, files: FileMap)
    requires LawfulTools(t)
    requires HoldsFile(files, Release().dist(Provenance), t.dump(WheelStatement(t, c, c.fingerprint)))
    ensures HoldsStatement(t, c, files, c.fingerprint)
  {
    ProvenanceName();
    StatementHeld(t, c, files, c.fingerprint);
  }

  /** Names of packed sources. */
  ghost predicate IsPackageName(c: Candidate, n: string) {
    || (exists x: string :: PACKAGE + x in c.repository && n == Under(x))
    || (SCHEMA in c.repository && n == Under(SCHEMA))
  }

  predicate IsMetadataName(c: Candidate, n: string) {
    n in {METADATA, WHEEL, ENTRY_POINTS, WHEEL_PROVENANCE, RECORD} || (n == WHEEL_LICENSE && "LICENSE" in c.repository)
  }

  /** Names of the files of a release wheel. */
  ghost predicate IsReleaseName(c: Candidate, n: string) {
    IsPackageName(c, n) || IsMetadataName(c, n)
  }

  lemma PackageNamesMean(t: Tools, c: Candidate, n: string)
    ensures n in PackedNames(Release(), PartsOf(t, c)) <==> IsPackageName(c, n)
  {
    var w := PartsOf(t, c);
    if n in PackedNames(Release(), w) {
      var s :| s in w.sources && Pack(s) == n;
      var x := PackagedIs(s);
      if s == SCHEMA { assert n == Under(SCHEMA); }
    }
    if x: string :| PACKAGE + x in c.repository && n == Under(x) {
      PackOf(x);
      assert PACKAGE + x in w.sources;
    }
    if SCHEMA in c.repository && n == Under(SCHEMA) { assert SCHEMA in w.sources && Pack(SCHEMA) == n; }
  }

  lemma FixedNamesMean(N: Naming, w: Parts, n: string)
    requires ValidParts(N, w)
    ensures n in FixedFiles(N, w) <==> exists x: DistName :: N.dist(x) == n && w.content(x).Some?
  {
    if n in FixedFiles(N, w) { var x := FixedOnly(N, w, n); }
    if x: DistName :| N.dist(x) == n && w.content(x).Some? { FixedHas(N, w, x); }
  }

  lemma ContentsPresent(t: Tools, c: Candidate, x: DistName)
    ensures PartsOf(t, c).content(x).Some? <==> !x.Record? && (x.License? ==> "LICENSE" in c.repository)
  {
  }

  lemma MetadataNamesMean(t: Tools, c: Candidate, n: string)
    requires ValidParts(Release(), PartsOf(t, c))
    ensures n in FixedFiles(Release(), PartsOf(t, c)) || n == Release().dist(Record) <==> IsMetadataName(c, n)
  {
    var N, w := Release(), PartsOf(t, c);
    FixedNamesMean(N, w, n);
    forall x: DistName ensures w.content(x).Some? <==> !x.Record? && (x.License? ==> "LICENSE" in c.repository) {
      ContentsPresent(t, c, x);
    }
    NamesOfDist();
    NameAmongDist(c, N, n);
  }

  lemma NameAmongDist(c: Candidate, N: Naming, n: string)
    requires N.dist(Metadata) == METADATA && N.dist(Wheel) == WHEEL && N.dist(EntryPoints) == ENTRY_POINTS
    requires N.dist(License) == WHEEL_LICENSE && N.dist(Provenance) == WHEEL_PROVENANCE && N.dist(Record) == RECORD
    ensures IsMetadataName(c, n) <==>
            exists x: DistName :: N.dist(x) == n && (x.License? ==> "LICENSE" in c.repository)
  {
    if x: DistName :| N.dist(x) == n && (x.License? ==> "LICENSE" in c.repository) {
      match x { case Metadata => case Wheel => case EntryPoints => case Provenance => case License => case Record => }
    }
  }

  lemma ExpectedMean(t: Tools, c: Candidate)
    requires ValidParts(Release(), PartsOf(t, c))
    ensures forall n :: n in ExpectedNames(Release(), PartsOf(t, c)) <==> IsReleaseName(c, n)
  {
    forall n ensures n in ExpectedNames(Release(), PartsOf(t, c)) <==> IsReleaseName(c, n) {
      PackageNamesMean(t, c, n);
      MetadataNamesMean(t, c, n);
    }
  }

  /** An accepted wheel has no other files: its names are those of the package, of the metadata, and RECORD. */
  lemma AcceptedWheelNames(t: Tools, c: Candidate, fingerprint: string, digest: string, archive: Archive)
    requires ValidCandidate(c) && AcceptsWheel(t, c, fingerprint, digest, archive)
    ensures forall n :: n in FilesOf(archive) <==> IsReleaseName(c, n)
  {
    PartsAreValid(t, c);
    AcceptedParts(ChecksFor(t, c, fingerprint, digest), t.lib, Release(), PartsOf(t, c), archive);
    ExpectedMean(t, c);
    assert forall n :: n in FilesOf(archive) <==> n in FilesOf(archive).Keys;
  }

  /** What the builder accepts from the build backend: these files, of which only the provenance may be missing, in one
      dist-info directory. */
  lemma InventoryMeans(t: Tools, c: Candidate, names: set<string>)
    requires ValidCandidate(c)
    ensures ValidParts(Release(), PartsOf(t, c))
    ensures InventoryOk(Release(), PartsOf(t, c), names) <==>
            && (forall n :: n in names && Release().inDistInfo(n) ==> Release().firstPart(n) == DIST_INFO)
            && (forall n :: n in names ==> IsReleaseName(c, n))
            && (forall n :: IsReleaseName(c, n) && n != WHEEL_PROVENANCE ==> n in names)
  {
    PartsAreValid(t, c);
    ExpectedMean(t, c);
    ProvenanceName();
    InventoryBySets(Release(), PartsOf(t, c), names);
    SetsByName(names, ExpectedNames(Release(), PartsOf(t, c)), WHEEL_PROVENANCE, n => IsReleaseName(c, n));
  }

  lemma SetsByName(names: set<string>, all: set<string>, spare: string, member: string -> bool)
    requires forall n :: n in all <==> member(n)
    ensures names <= all && all - {spare} <= names <==>
            && (forall n :: n in names ==> member(n))
            && (forall n :: member(n) && n != spare ==> n in names)
  {
  }

  lemma InventoryBySets(N: Naming, w: Parts, names: set<string>)
    requires ValidParts(N, w)
    ensures InventoryOk(N, w, names) <==>
            && (forall n :: n in names && N.inDistInfo(n) ==> N.firstPart(n) == N.distInfo)
            && names <= ExpectedNames(N, w) && ExpectedNames(N, w) - {N.dist(Provenance)} <= names
  {
    var all, spare, one := ExpectedNames(N, w), N.dist(Provenance), N.dist(Metadata);
    SpareMayBeMissing(names, all, spare);
    FixedHas(N, w, Metadata);
    assert one in all && one != spare && N.inDistInfo(one) && N.firstPart(one) == N.distInfo;
    if one in names { OneDirectory(N, names, one); }
  }

  lemma SpareMayBeMissing(names: set<string>, all: set<string>, spare: string)
    ensures names <= all && all - {spare} <= names <==> names == all || names == all - {spare}
  {
    if names <= all && all - {spare} <= names {
      if spare in names { assert names == all; } else { assert names == all - {spare}; }
    }
  }

  lemma OneDirectory(N: Naming, names: set<string>, one: string)
    requires one in names && N.inDistInfo(one) && N.firstPart(one) == N.distInfo
    ensures DistParts(N, names) == {N.distInfo} <==>
            forall n :: n in names && N.inDistInfo(n) ==> N.firstPart(n) == N.distInfo
  {
    assert N.firstPart(one) in DistParts(N, names);
    if DistParts(N, names) == {N.distInfo} {
      forall n | n in names && N.inDistInfo(n) ensures N.firstPart(n) == N.distInfo {
        assert N.firstPart(n) in DistParts(N, names);
      }
    }
  }

  // ----- the source distribution

  const PKG_INFO := ReleaseSdist.In("PKG-INFO")
  const SDIST_PROVENANCE := ReleaseSdist.In("artifex-release-provenance.json")

  /** What the builder accepts from the build backend: one root, the sources that a wheel packs, and package
      information. */
  lemma SdistInventoryMeans(c: Candidate, names: set<string>)
    ensures ReleaseSdist.SdistInventoryOk(c, names) <==>
            && (forall n :: n in names ==> Root(n) == ReleaseSdist.ROOT)
            && (forall n :: n in c.repository && IsWheelSource(n) ==> ReleaseSdist.In(n) in names)
            && PKG_INFO in names
  {
    forall n | n in names ensures Root(n) in ReleaseSdist.Roots(names) {}
    if PKG_INFO in names && forall n :: n in names ==> Root(n) == ReleaseSdist.ROOT {
      assert ReleaseSdist.Roots(names) == {ReleaseSdist.ROOT};
    }
  }

  /** Whatever source distribution is accepted holds the whole commit, its package information, and a statement of this
      candidate under the recorded digest; and nothing else. */
  lemma AcceptedSdistHolds(t: Tools, pyprojectOk: Bytes -> bool, c: Candidate, fingerprint: string, digest: string,
                           tar: ReleaseSdist.Tar)
    requires ReleaseSdist.AcceptsSdist(t, pyprojectOk, c, fingerprint, digest, tar)
    ensures
      var files := ReleaseSdist.Files(tar);
      && (forall n :: n in c.repository ==>
            HoldsFile(files, ReleaseSdist.In(n), c.repository[n]))
      && HoldsFile(files, PKG_INFO, c.metadata)
      && SDIST_PROVENANCE in files
      && t.hex(t.lib.sha(files[SDIST_PROVENANCE])) == digest
      && t.load(files[SDIST_PROVENANCE]).Some?
      && States(t, c, t.load(files[SDIST_PROVENANCE]).value, "sdist", fingerprint, n => true)
      && (forall m :: m in files ==>
            || m == PKG_INFO || m == SDIST_PROVENANCE
            || exists n :: n in c.repository && m == ReleaseSdist.In(n))
  {
    var files := ReleaseSdist.Files(tar);
    SdistStates(t, c, fingerprint);
    forall n | n in c.repository ensures HoldsFile(files, ReleaseSdist.In(n), c.repository[n]) {
      assert ReleaseSdist.HasRight(files, n, b => b == c.repository[n]);
    }
    forall m | m in files
      ensures m == PKG_INFO || m == SDIST_PROVENANCE || exists n :: n in c.repository && m == ReleaseSdist.In(n)
    {
      var p :| p in ReleaseSdist.Paths(c) && m == ReleaseSdist.In(p);
    }
  }
}

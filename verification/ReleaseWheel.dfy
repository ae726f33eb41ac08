/**
 The release wheel of a candidate commit: what the builder and the verifier derive from the
 commit, and the exact condition on the commit under which they agree.
 */
module ReleaseWheel {
  import opened Options
  import opened ByteText
  import opened Counting
  import opened ArchivePlan
  import opened WheelNames
  import opened WheelPlan
  import opened WheelVerifier
  import opened ArchiveBounds

  /** The tree of a commit in listing order, its project-model fingerprint, and the three package
      metadata files derived from its `pyproject.toml`. */
  datatype Candidate = Candidate(
    commit: string, fingerprint: string, listing: seq<string>, repository: FileMap,
    metadata: Bytes, wheelMetadata: Bytes, entryPoints: Bytes)

  /** The embedded provenance statement. */
  datatype Statement = Statement(
    schemaVersion: string, kind: string, commit: string, fingerprint: string, toolchain: string,
    hashes: map<string, string>)

  /** JSON and the two content checks, on top of hashing and text conversion. */
  datatype Tools = Tools(
    lib: Library, hex: Bytes -> string, dump: Statement -> Bytes, load: Bytes -> Option<Statement>,
    versionOk: Bytes -> bool, schemaOk: Bytes -> bool)

  ghost predicate LawfulTools(t: Tools) {
    Lawful(t.lib) && forall v :: t.load(t.dump(v)) == Some(v)
  }

  const LICENSE := "LICENSE"

  /** A listing of file names, none of them quoted or with control characters. */
  ghost predicate ValidCandidate(c: Candidate) {
    && Elements(c.listing) == c.repository.Keys
    && (forall n :: n in c.repository ==> FileName(n))
  }

  function Only(names: seq<string>, keep: string -> bool): seq<string> {
    if names == [] then [] else (if keep(names[0]) then [names[0]] else []) + Only(names[1..], keep)
  }

  lemma {:induction false} OnlyHolds(names: seq<string>, keep: string -> bool)
    ensures forall n :: n in Only(names, keep) <==> n in names && keep(n)
  {
    if names != [] { OnlyHolds(names[1..], keep); }
  }

  function SourceHashes(t: Tools, c: Candidate): map<string, string> {
    map n | n in c.repository && (n == PYPROJECT || IsPackaged(n)) :: t.hex(t.lib.sha(c.repository[n]))
  }

  /** The statement the builder embeds, and the one the verifier recomputes from the binding's fingerprint. */
  function WheelStatement(t: Tools, c: Candidate, fingerprint: string): Statement {
    Statement("1.0", "wheel", c.commit, fingerprint, "hatchling==1.27.0", SourceHashes(t, c))
  }

  function Content(t: Tools, c: Candidate, x: DistName): Option<Bytes> {
    match x
    case Metadata => Some(c.metadata)
    case Wheel => Some(c.wheelMetadata)
    case EntryPoints => Some(c.entryPoints)
    case Provenance => Some(t.dump(WheelStatement(t, c, c.fingerprint)))
    case License => if LICENSE in c.repository then Some(c.repository[LICENSE]) else None
    case Record => None
  }

  function PartsOf(t: Tools, c: Candidate): Parts {
    Parts(
      Only(c.listing, n => IsPackaged(n)),
      map n | n in c.repository && IsPackaged(n) :: c.repository[n],
      x => Content(t, c, x))
  }

  lemma PartsAreValid(t: Tools, c: Candidate)
    requires ValidCandidate(c)
    ensures ValidParts(Release(), PartsOf(t, c))
  {
    ReleaseNamesAreGood();
    var w := PartsOf(t, c);
    OnlyHolds(c.listing, n => IsPackaged(n));
    forall n ensures n in Elements(w.listing) <==> n in w.sources.Keys {
      assert n in Elements(c.listing) <==> n in c.repository;
    }
  }

  /** The verifier's checks for this candidate, a binding's fingerprint and a recorded provenance digest. */
  function ChecksFor(t: Tools, c: Candidate, fingerprint: string, digest: string): Checks {
    Checks(a => Bounded(a), t.versionOk, t.schemaOk,
           raw => t.hex(t.lib.sha(raw)) == digest && t.load(raw) == Some(WheelStatement(t, c, fingerprint)))
  }

  /** The verdict of `_validate_wheel`: collecting the candidate's sources already refuses a candidate without its
      project file. */
  ghost predicate AcceptsWheel(t: Tools, c: Candidate, fingerprint: string, digest: string, archive: Archive) {
    PYPROJECT in c.repository && Accepts(ChecksFor(t, c, fingerprint, digest), t.lib, Release(), PartsOf(t, c), archive)
  }

  // ----- finalisation

  /** `_finalize_wheel`: refused without `pyproject.toml` or on a wrong inventory, otherwise the candidate's canonical
      wheel. */
  method FinalizeWheel(t: Tools, c: Candidate, built: Archive) returns (r: Option<Archive>)
    requires ValidCandidate(c)
    ensures ValidParts(Release(), PartsOf(t, c))
    ensures r.Some? <==> PYPROJECT in c.repository && InventoryOk(Release(), PartsOf(t, c), FilesOf(built).Keys)
    ensures r.Some? ==> r.value == CanonicalWheel(t.lib, Release(), PartsOf(t, c))
  {
    PartsAreValid(t, c);
    if PYPROJECT !in c.repository {
      return None;
    }
    r := Finalize(t.lib, Release(), PartsOf(t, c), built);
  }

  /** Source finalisation twice, from any two built wheels: the second result is the first one, and so is a re-run on
      it. */
  method FinalizeTwice(t: Tools, c: Candidate, a: Archive, b: Archive)
    returns (ra: Option<Archive>, rb: Option<Archive>, again: Option<Archive>)
    requires ValidCandidate(c)
    ensures ra.Some? && rb.Some? ==> ra == rb
    ensures ra.Some? ==> again == ra
  {
    ra := FinalizeWheel(t, c, a);
    rb := FinalizeWheel(t, c, b);
    again := None;
    if ra.Some? {
      FinalizedAgain(t.lib, Release(), PartsOf(t, c), FilesOf(a).Keys);
      again := FinalizeWheel(t, c, ra.value);
    }
  }

  // ----- agreement

  const PACKAGE := "src/artifex/"
  const SOURCE_SCHEMA := PACKAGE + "schemas/acceptance-evidence.schema.json"
  const SOURCE_VERSION := PACKAGE + "_version.py"

  /** The one collision of the naming: the schema at the root and a schema inside the package. */
  predicate OneSchema(c: Candidate) {
    SCHEMA in c.repository && SOURCE_SCHEMA in c.repository ==> c.repository[SCHEMA] == c.repository[SOURCE_SCHEMA]
  }

  lemma PackOf(x: string)
    ensures IsPackaged(PACKAGE + x) && PACKAGE + x != SCHEMA && Pack(PACKAGE + x) == Under(x)
  {
    assert (PACKAGE + x)[1] == 'r' && SCHEMA[1] == 'c';
    assert (PACKAGE + x)[12..] == x;
  }

  /** A packaged source is the schema or lies under the package directory. */
  lemma PackagedIs(n: string) returns (x: string)
    requires IsPackaged(n)
    ensures Pack(n) == Under(x) && (n == SCHEMA || n == PACKAGE + x)
    ensures n == SCHEMA ==> PACKAGE + x == SOURCE_SCHEMA
  {
    x := if n == SCHEMA then "schemas/acceptance-evidence.schema.json" else n[12..];
    if n != SCHEMA { assert n == PACKAGE + x; PackOf(x); }
  }

  lemma UnderInjective(x: string, y: string)
    requires Under(x) == Under(y)
    ensures x == y
  {
    assert Under(x)[8..] == x && Under(y)[8..] == y;
  }

  lemma ConsistentIffOneSchema(t: Tools, c: Candidate)
    ensures Consistent(Release(), PartsOf(t, c)) <==> OneSchema(c)
  {
    var N, w := Release(), PartsOf(t, c);
    PackOf("schemas/acceptance-evidence.schema.json");
    if OneSchema(c) {
      forall a, b | a in w.sources && b in w.sources && N.pack(a) == N.pack(b) ensures w.sources[a] == w.sources[b] {
        var x := PackagedIs(a);
        var y := PackagedIs(b);
        UnderInjective(x, y);
      }
    }
    if Consistent(N, w) && SCHEMA in c.repository && SOURCE_SCHEMA in c.repository {
      assert SCHEMA in w.sources && SOURCE_SCHEMA in w.sources && N.pack(SCHEMA) == N.pack(SOURCE_SCHEMA);
    }
  }

  /** What the commit must satisfy besides: a version file and a schema of the right identity. */
  predicate RightContents(t: Tools, c: Candidate) {
    && SOURCE_VERSION in c.repository && t.versionOk(c.repository[SOURCE_VERSION])
    && (SCHEMA in c.repository || SOURCE_SCHEMA in c.repository)
    && (SCHEMA in c.repository ==> t.schemaOk(c.repository[SCHEMA]))
    && (SOURCE_SCHEMA in c.repository ==> t.schemaOk(c.repository[SOURCE_SCHEMA]))
  }

  lemma SourcesArePacked(t: Tools, c: Candidate, files: FileMap, n: string)
    requires Shape(Release(), PartsOf(t, c), files) && n in c.repository && IsPackaged(n)
    ensures Pack(n) in files
  {
    assert n in PartsOf(t, c).sources;
    assert PackedFrom(Release(), PartsOf(t, c), files, n);
  }

  lemma UnderIsInPackage(x: string)
    ensures Release().inPackage(Under(x))
  {
  }

  lemma UnderContent(t: Tools, c: Candidate, files: FileMap, x: string) returns (s: string)
    requires ValidParts(Release(), PartsOf(t, c)) && Shape(Release(), PartsOf(t, c), files) && Under(x) in files
    ensures s in c.repository && IsPackaged(s) && Pack(s) == Under(x) && files[Under(x)] == c.repository[s]
  {
    UnderIsInPackage(x);
    s := PackedContent(Release(), PartsOf(t, c), files, Under(x));
  }

  lemma VersionComesFrom(s: string)
    requires IsPackaged(s) && Pack(s) == Under("_version.py")
    ensures s == SOURCE_VERSION
  {
    var x := PackagedIs(s);
    UnderInjective(x, "_version.py");
    assert SOURCE_SCHEMA[12] == 's' && SOURCE_VERSION[12] == '_';
  }

  lemma SchemaComesFrom(s: string)
    requires IsPackaged(s) && Pack(s) == Release().packagedSchema
    ensures s == SCHEMA || s == SOURCE_SCHEMA
  {
    var x := PackagedIs(s);
    UnderInjective(x, "schemas/acceptance-evidence.schema.json");
  }

  lemma VersionContent(t: Tools, c: Candidate, files: FileMap)
    requires ValidParts(Release(), PartsOf(t, c)) && Shape(Release(), PartsOf(t, c), files)
    ensures Under("_version.py") in files <==> SOURCE_VERSION in c.repository
    ensures SOURCE_VERSION in c.repository ==> files[Under("_version.py")] == c.repository[SOURCE_VERSION]
  {
    PackOf("_version.py");
    if SOURCE_VERSION in c.repository { SourcesArePacked(t, c, files, SOURCE_VERSION); }
    if Under("_version.py") in files {
      var s := UnderContent(t, c, files, "_version.py");
      VersionComesFrom(s);
    }
  }

  lemma SchemaContent(t: Tools, c: Candidate, files: FileMap)
    requires ValidParts(Release(), PartsOf(t, c)) && Shape(Release(), PartsOf(t, c), files) && OneSchema(c)
    ensures
      var m := Release().packagedSchema;
      && (m in files <==> SCHEMA in c.repository || SOURCE_SCHEMA in c.repository)
      && (SCHEMA in c.repository ==> files[m] == c.repository[SCHEMA])
      && (SOURCE_SCHEMA in c.repository ==> files[m] == c.repository[SOURCE_SCHEMA])
  {
    var x := "schemas/acceptance-evidence.schema.json";
    PackOf(x);
    assert Pack(SCHEMA) == Under(x) && IsPackaged(SCHEMA);
    if SCHEMA in c.repository { SourcesArePacked(t, c, files, SCHEMA); }
    if SOURCE_SCHEMA in c.repository { SourcesArePacked(t, c, files, SOURCE_SCHEMA); }
    if Under(x) in files {
      var s := UnderContent(t, c, files, x);
      SchemaComesFrom(s);
    }
  }

  ghost function ReleasedWheel(t: Tools, c: Candidate): Archive
    requires ValidCandidate(c)
  {
    PartsAreValid(t, c);
    CanonicalWheel(t.lib, Release(), PartsOf(t, c))
  }

  function RecordedDigest(t: Tools, c: Candidate): string {
    t.hex(t.lib.sha(t.dump(WheelStatement(t, c, c.fingerprint))))
  }

  lemma ProvenanceContent(t: Tools, c: Candidate, files: FileMap, fingerprint: string)
    requires LawfulTools(t) && Shape(Release(), PartsOf(t, c), files)
    ensures Release().dist(Provenance) in files
    ensures ChecksFor(t, c, fingerprint, RecordedDigest(t, c)).provenanceOk(files[Release().dist(Provenance)]) <==>
              fingerprint == c.fingerprint
  {
    var raw := t.dump(WheelStatement(t, c, c.fingerprint));
    assert PartsOf(t, c).content(Provenance) == Some(raw);
    assert files[Release().dist(Provenance)] == raw;
    assert t.load(raw) == Some(WheelStatement(t, c, c.fingerprint));
  }

  /**
   Builder and verifier agree: the wheel finalised from an allowed inventory is accepted for the
   same candidate if and only if the binding carries the candidate's fingerprint, the archive is
   within bounds, the candidate has its project file, the one possible name collision is harmless, and
   version file and schema are right.
   */
  lemma FinalizedWheelAccepted(t: Tools, c: Candidate, built: Archive, fingerprint: string)
    requires LawfulTools(t) && ValidCandidate(c)
    requires InventoryOk(Release(), PartsOf(t, c), FilesOf(built).Keys)
    ensures AcceptsWheel(t, c, fingerprint, RecordedDigest(t, c), ReleasedWheel(t, c)) <==>
            && PYPROJECT in c.repository && Bounded(ReleasedWheel(t, c)) && OneSchema(c)
            && RightContents(t, c) && fingerprint == c.fingerprint
  {
    FinalizedPartsAccepted(t, c, built, fingerprint, ChecksFor(t, c, fingerprint, RecordedDigest(t, c)));
  }

  lemma FinalizedPartsAccepted(t: Tools, c: Candidate, built: Archive, fingerprint: string, k: Checks)
    requires LawfulTools(t) && ValidCandidate(c) && k == ChecksFor(t, c, fingerprint, RecordedDigest(t, c))
    requires InventoryOk(Release(), PartsOf(t, c), FilesOf(built).Keys)
    ensures Accepts(k, t.lib, Release(), PartsOf(t, c), ReleasedWheel(t, c)) <==>
            Bounded(ReleasedWheel(t, c)) && OneSchema(c) && RightContents(t, c) && fingerprint == c.fingerprint
  {
    PartsAreValid(t, c);
    FinalizedAcceptedIffFit(k, t.lib, Release(), PartsOf(t, c), built);
    FitIs(t, c, fingerprint);
  }

  function WithSchemas(c: Candidate, one: Bytes, other: Bytes): Candidate {
    c.(
      listing := c.listing + [SCHEMA, SOURCE_SCHEMA],
      repository := c.repository[SCHEMA := one][SOURCE_SCHEMA := other])
  }

  lemma WithSchemasIsValid(c: Candidate, one: Bytes, other: Bytes)
    requires ValidCandidate(c)
    ensures ValidCandidate(WithSchemas(c, one, other))
    ensures OneSchema(WithSchemas(c, one, other)) <==> one == other
  {
    SchemaNames();
    assert Elements(WithSchemas(c, one, other).listing) == Elements(c.listing) + {SCHEMA, SOURCE_SCHEMA};
  }

  lemma SchemaNames()
    ensures FileName(SCHEMA) && FileName(SOURCE_SCHEMA) && SCHEMA != SOURCE_SCHEMA
  {
    assert SCHEMA[1] == 'c' && SOURCE_SCHEMA[1] == 'r';
  }

  lemma CollisionRefused(t: Tools, c: Candidate, fingerprint: string, digest: string)
    requires ValidCandidate(c) && !OneSchema(c)
    ensures !AcceptsWheel(t, c, fingerprint, digest, ReleasedWheel(t, c))
  {
    PartsAreValid(t, c);
    ConsistentIffOneSchema(t, c);
    InconsistentRefused(ChecksFor(t, c, fingerprint, digest), t.lib, Release(), PartsOf(t, c));
  }

  /** Two different schemas, one at the root and one in the package, make the finalised wheel of any repository
      refused. */
  lemma TwoSchemasRefused(t: Tools, c: Candidate, one: Bytes, other: Bytes, fingerprint: string, digest: string)
    requires ValidCandidate(c) && one != other
    ensures ValidCandidate(WithSchemas(c, one, other))
    ensures
      var d := WithSchemas(c, one, other);
      !AcceptsWheel(t, d, fingerprint, digest, ReleasedWheel(t, d))
  {
    WithSchemasIsValid(c, one, other);
    CollisionRefused(t, WithSchemas(c, one, other), fingerprint, digest);
  }

  lemma FitIs(t: Tools, c: Candidate, fingerprint: string)
    requires LawfulTools(t) && ValidCandidate(c) && ValidParts(Release(), PartsOf(t, c))
    ensures Fit(ChecksFor(t, c, fingerprint, RecordedDigest(t, c)), t.lib, Release(), PartsOf(t, c)) <==>
            Bounded(ReleasedWheel(t, c)) && OneSchema(c) && RightContents(t, c) && fingerprint == c.fingerprint
  {
    ConsistentIffOneSchema(t, c);
    CanonicalShape(t.lib, Release(), PartsOf(t, c));
    FitMeans(t, c, CanonicalContent(t.lib, Release(), PartsOf(t, c)), fingerprint);
  }

  lemma FitMeans(t: Tools, c: Candidate, files: FileMap, fingerprint: string)
    requires LawfulTools(t) && ValidParts(Release(), PartsOf(t, c)) && Shape(Release(), PartsOf(t, c), files)
    ensures OneSchema(c) ==>
      (ContentsFit(ChecksFor(t, c, fingerprint, RecordedDigest(t, c)), Release(), files) <==>
          RightContents(t, c) && fingerprint == c.fingerprint)
  {
    if OneSchema(c) {
      VersionContent(t, c, files);
      SchemaContent(t, c, files);
      ProvenanceContent(t, c, files, fingerprint);
    }
  }
}

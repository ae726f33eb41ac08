/**
 The release source distribution of a candidate commit: the whole repository under one directory,
 with package information and a provenance statement.
 */
module ReleaseSdist {
  import opened Options
  import opened ByteText
  import opened Counting
  import opened NameOrder
  import opened ArchivePlan
  import opened ArchiveBounds
  import WheelNames
  import opened ReleaseWheel

  /** A member of a tar archive. */
  datatype Entry = Entry(member: Member, kind: Kind)
  datatype Kind = Regular | Directory | Link | Special
  type Tar = seq<Entry>

  const ROOT := "artifex_dev-1.0.0"
  const PKG_INFO := "PKG-INFO"
  const PROVENANCE := "artifex-release-provenance.json"
  const VERSION := PACKAGE + "_version.py"

  function In(name: string): string {
    ROOT + ("/" + name)
  }

  lemma InInjective(a: string, b: string)
    ensures In(a) == In(b) <==> a == b
  {
    if In(a) == In(b) {
      assert In(a)[|ROOT| + 1..] == a && In(b)[|ROOT| + 1..] == b;
    }
  }

  lemma InIsFile(name: string)
    requires FileName(name)
    ensures !IsDirectory(In(name)) && WheelNames.Root(In(name)) == ROOT
  {
    assert In(name)[|In(name)| - 1] == name[|name| - 1];
    assert |ROOT| > 1;
    WheelNames.RootIs(ROOT, name);
  }

  function Members(tar: Tar): Archive {
    seq(|tar|, k requires 0 <= k < |tar| => tar[k].member)
  }

  /** The dictionary of the regular members: a repeated name keeps its last content. */
  function Files(tar: Tar): FileMap {
    if tar == [] then map[] else
      var before, last := Files(tar[..|tar| - 1]), tar[|tar| - 1];
      if last.kind == Regular then before[last.member.name := last.member.content] else before
  }

  function TarOf(a: Archive): Tar {
    seq(|a|, k requires 0 <= k < |a| => Entry(a[k], Regular))
  }

  lemma {:induction false} RegularFiles(a: Archive)
    requires forall k :: 0 <= k < |a| ==> !IsDirectory(a[k].name)
    ensures Files(TarOf(a)) == FilesOf(a) && Members(TarOf(a)) == a
  {
    if a != [] {
      var n := |a| - 1;
      RegularFiles(a[..n]);
      assert TarOf(a)[..n] == TarOf(a[..n]);
    }
  }

  // ----- what the candidate determines

  function Hashes(t: Tools, c: Candidate): map<string, string> {
    map n | n in c.repository :: t.hex(t.lib.sha(c.repository[n]))
  }

  function SdistStatement(t: Tools, c: Candidate, fingerprint: string): Statement {
    Statement("1.0", "sdist", c.commit, fingerprint, "hatchling==1.27.0", Hashes(t, c))
  }

  function Embedded(t: Tools, c: Candidate): Bytes {
    t.dump(SdistStatement(t, c, c.fingerprint))
  }

  /** What the archive holds for a path of the source distribution. */
  function ContentAt(t: Tools, c: Candidate, path: string): Option<Bytes> {
    if path == PROVENANCE then Some(Embedded(t, c))
    else if path == PKG_INFO then Some(c.metadata)
    else if path in c.repository then Some(c.repository[path])
    else None
  }

  function Paths(c: Candidate): set<string> {
    c.repository.Keys + {PKG_INFO, PROVENANCE}
  }

  /** The dictionary is the candidate's, path by path. */
  ghost predicate Matches(t: Tools, c: Candidate, files: FileMap) {
    && files.Keys == (set p | p in Paths(c) :: In(p))
    && forall p :: p in Paths(c) ==> Some(files[In(p)]) == ContentAt(t, c, p)
  }

  lemma MatchIsUnique(t: Tools, c: Candidate, a: FileMap, b: FileMap)
    requires Matches(t, c, a) && Matches(t, c, b)
    ensures a == b
  {
    forall n | n in a ensures a[n] == b[n] {
      var p :| p in Paths(c) && n == In(p);
      assert Some(a[In(p)]) == Some(b[In(p)]);
    }
  }

  lemma MatchExists(t: Tools, c: Candidate) returns (files: FileMap)
    ensures Matches(t, c, files)
  {
    files := map n | n in (set p | p in Paths(c) :: In(p)) :: ContentOr(t, c, n);
    forall p | p in Paths(c) ensures In(p) in files && Some(files[In(p)]) == ContentAt(t, c, p) {
      ContentOrIs(t, c, p);
    }
  }

  lemma ContentOrIs(t: Tools, c: Candidate, p: string)
    requires p in Paths(c)
    ensures Some(ContentOr(t, c, In(p))) == ContentAt(t, c, p)
  {
    assert In(p)[|ROOT| + 1..] == p;
  }

  function ContentOr(t: Tools, c: Candidate, n: string): Bytes {
    if |n| <= |ROOT| then [] else
      match ContentAt(t, c, n[|ROOT| + 1..])
      case Some(b) => b
      case None => []
  }

  lemma SomeMatch(t: Tools, c: Candidate)
    ensures exists files :: Matches(t, c, files)
  {
    var files := MatchExists(t, c);
  }

  ghost function SdistFiles(t: Tools, c: Candidate): (files: FileMap)
    ensures Matches(t, c, files)
  {
    SomeMatch(t, c);
    var files :| Matches(t, c, files);
    files
  }

  /** The candidate's source distribution: its files in name order, all regular. */
  ghost function ReleasedSdist(t: Tools, c: Candidate): Tar {
    TarOf(ArchiveOf(SdistFiles(t, c)))
  }

  lemma ReleasedFiles(t: Tools, c: Candidate)
    requires ValidCandidate(c)
    ensures Files(ReleasedSdist(t, c)) == SdistFiles(t, c)
    ensures Members(ReleasedSdist(t, c)) == ArchiveOf(SdistFiles(t, c))
  {
    NoDirectories(t, c, SdistFiles(t, c));
    FilesReadBack(SdistFiles(t, c));
  }

  lemma NoDirectories(t: Tools, c: Candidate, files: FileMap)
    requires ValidCandidate(c) && Matches(t, c, files)
    ensures forall n :: n in files ==> !IsDirectory(n)
  {
    forall n | n in files ensures !IsDirectory(n) {
      var p :| p in Paths(c) && n == In(p);
      ReservedAreFileNames();
      InIsFile(p);
    }
  }

  lemma ReservedAreFileNames()
    ensures FileName(PKG_INFO) && FileName(PROVENANCE)
  {
  }

  lemma FilesReadBack(files: FileMap)
    requires forall n :: n in files ==> !IsDirectory(n)
    ensures Files(TarOf(ArchiveOf(files))) == files && Members(TarOf(ArchiveOf(files))) == ArchiveOf(files)
  {
    FilesOfArchive(files);
    var a := ArchiveOf(files);
    forall k | 0 <= k < |a| ensures !IsDirectory(a[k].name) {
      assert a[k].name == Names(a)[k] && Names(a)[k] in Elements(Sorted(files.Keys));
    }
    RegularFiles(a);
  }

  // ----- finalisation

  function Roots(names: set<string>): set<string> {
    set n | n in names :: WheelNames.Root(n)
  }

  /** What the builder demands: one root, the packaged sources and the package information. */
  predicate SdistInventoryOk(c: Candidate, names: set<string>) {
    && Roots(names) == {ROOT}
    && (forall n :: n in c.repository && (n == WheelNames.PYPROJECT || WheelNames.IsPackaged(n)) ==> In(n) in names)
    && In(PKG_INFO) in names
  }

  lemma BuiltMatches(t: Tools, c: Candidate, copied: FileMap)
    requires ValidCandidate(c) && (forall n :: n in c.listing ==> n in c.repository)
    requires copied == Packed(c.listing, c.repository, n => In(n))
    ensures Matches(t, c, copied[In(PKG_INFO) := c.metadata][In(PROVENANCE) := Embedded(t, c)])
  {
    var pack := n => In(n);
    PackedHolds(c.listing, c.repository, pack);
    var files := copied[In(PKG_INFO) := c.metadata][In(PROVENANCE) := Embedded(t, c)];
    assert forall n :: n in c.repository <==> n in Elements(c.listing);
    forall p | p in Paths(c) ensures In(p) in files && Some(files[In(p)]) == ContentAt(t, c, p) {
      InInjective(p, PKG_INFO);
      InInjective(p, PROVENANCE);
      if p in c.repository {
        assert pack(p) in copied;
        var n :| n in c.listing && pack(n) == pack(p) && c.repository[n] == copied[pack(p)];
        InInjective(n, p);
      }
    }
    forall n | n in files ensures n in set p | p in Paths(c) :: In(p) {
      assert PKG_INFO in Paths(c) && PROVENANCE in Paths(c);
      if n in copied { var p :| p in c.listing && n == pack(p); }
    }
  }

  /** `_finalize_sdist`: refused on a wrong inventory, otherwise the candidate's source distribution, whatever was
      built. */
  method FinalizeSdist(t: Tools, c: Candidate, built: Tar) returns (r: Option<Tar>)
    requires ValidCandidate(c)
    ensures r.Some? <==> WheelNames.PYPROJECT in c.repository && SdistInventoryOk(c, Files(built).Keys)
    ensures r.Some? ==> r.value == ReleasedSdist(t, c)
  {
    var members := Files(built);
    if WheelNames.PYPROJECT !in c.repository || !SdistInventoryOk(c, members.Keys) {
      return None;
    }
    assert forall n :: n in c.listing ==> n in Elements(c.listing);
    members := CopySources(c.listing, c.repository, n => In(n), map[]);
    BuiltMatches(t, c, members);
    members := members[In(PKG_INFO) := c.metadata];
    members := members[In(PROVENANCE) := Embedded(t, c)];
    MatchIsUnique(t, c, members, SdistFiles(t, c));
    var a := WriteArchive(members);
    return Some(TarOf(a));
  }

  lemma MatchingInventory(t: Tools, c: Candidate, files: FileMap)
    requires ValidCandidate(c) && Matches(t, c, files)
    ensures SdistInventoryOk(c, files.Keys)
  {
    forall p | p in Paths(c) ensures In(p) in files && WheelNames.Root(In(p)) == ROOT {
      ReservedAreFileNames();
      InIsFile(p);
    }
    assert PKG_INFO in Paths(c) && WheelNames.Root(In(PKG_INFO)) in Roots(files.Keys);
  }

  /** Any two built archives give the same result, and finalising the result changes nothing. */
  method FinalizeSdistTwice(t: Tools, c: Candidate, a: Tar, b: Tar)
    returns (ra: Option<Tar>, rb: Option<Tar>, again: Option<Tar>)
    requires ValidCandidate(c)
    ensures ra.Some? && rb.Some? ==> ra == rb
    ensures ra.Some? ==> again == ra
  {
    ra := FinalizeSdist(t, c, a);
    rb := FinalizeSdist(t, c, b);
    again := None;
    if ra.Some? {
      ReleasedFiles(t, c);
      MatchingInventory(t, c, SdistFiles(t, c));
      again := FinalizeSdist(t, c, ra.value);
    }
  }

  // ----- verification

  /** Exactly one regular member has the name. */
  predicate OneFileNamed(tar: Tar, name: string) {
    exists k ::
      && 0 <= k < |tar| && IsFileNamed(tar[k], name)
      && forall j :: 0 <= j < |tar| && IsFileNamed(tar[j], name) ==> j == k
  }

  predicate IsFileNamed(e: Entry, name: string) {
    e.kind == Regular && e.member.name == name
  }

  predicate HasRight(files: FileMap, path: string, ok: Bytes -> bool) {
    In(path) in files && ok(files[In(path)])
  }

  predicate IsRecorded(t: Tools, raw: Bytes, digest: string, statement: Statement) {
    t.hex(t.lib.sha(raw)) == digest && t.load(raw) == Some(statement)
  }

  /** The verdict of `_validate_sdist` for a binding's fingerprint and a recorded provenance digest. */
  predicate AcceptsSdist(t: Tools, pyprojectOk: Bytes -> bool, c: Candidate, fingerprint: string, digest: string,
                         tar: Tar)
  {
    && Bounded(Members(tar))
    && (forall k :: 0 <= k < |tar| ==> tar[k].kind.Regular? || tar[k].kind.Directory?)
    && OneFileNamed(tar, In(PKG_INFO))
    && AcceptsFiles(t, pyprojectOk, c, fingerprint, digest, Files(tar))
  }

  /** The part of the verdict that is about the contents of the regular files. */
  predicate AcceptsFiles(t: Tools, pyprojectOk: Bytes -> bool, c: Candidate, fingerprint: string, digest: string,
                         files: FileMap)
  {
    && HasRight(files, PKG_INFO, b => b == c.metadata)
    && files.Keys == (set p | p in Paths(c) :: In(p))
    && HasRight(files, VERSION, t.versionOk)
    && HasRight(files, WheelNames.SCHEMA, t.schemaOk)
    && HasRight(files, WheelNames.PYPROJECT, pyprojectOk)
    && HasRight(files, PROVENANCE, b => IsRecorded(t, b, digest, SdistStatement(t, c, fingerprint)))
    && (forall p :: p in c.repository ==> HasRight(files, p, b => b == c.repository[p]))
  }

  function SdistDigest(t: Tools, c: Candidate): string {
    t.hex(t.lib.sha(Embedded(t, c)))
  }

  predicate Holds(c: Candidate, path: string, ok: Bytes -> bool) {
    path in c.repository && ok(c.repository[path])
  }

  /** Files the repository has under the two reserved names are the files the builder puts there. */
  predicate NothingClobbered(t: Tools, c: Candidate) {
    && (PKG_INFO in c.repository ==> c.repository[PKG_INFO] == c.metadata)
    && (PROVENANCE in c.repository ==> c.repository[PROVENANCE] == Embedded(t, c))
  }

  predicate SdistContentsRight(t: Tools, pyprojectOk: Bytes -> bool, c: Candidate) {
    && Holds(c, VERSION, t.versionOk) && Holds(c, WheelNames.SCHEMA, t.schemaOk)
    && Holds(c, WheelNames.PYPROJECT, pyprojectOk)
  }

  lemma RightIffHolds(t: Tools, c: Candidate, files: FileMap, path: string, ok: Bytes -> bool)
    requires Matches(t, c, files) && path != PKG_INFO && path != PROVENANCE
    ensures HasRight(files, path, ok) <==> Holds(c, path, ok)
  {
    if In(path) in files {
      var p :| p in Paths(c) && In(path) == In(p);
      InInjective(path, p);
    }
  }

  lemma SourcesRightIff(t: Tools, c: Candidate, files: FileMap)
    requires Matches(t, c, files)
    ensures (forall p :: p in c.repository ==> HasRight(files, p, b => b == c.repository[p])) <==>
              NothingClobbered(t, c)
  {
    forall p | p in c.repository
      ensures HasRight(files, p, b => b == c.repository[p]) <==> ContentAt(t, c, p) == Some(c.repository[p])
    {
      assert p in Paths(c);
    }
    if NothingClobbered(t, c) {
      forall p | p in c.repository ensures ContentAt(t, c, p) == Some(c.repository[p]) {}
    } else if PKG_INFO in c.repository && c.repository[PKG_INFO] != c.metadata {
      assert !HasRight(files, PKG_INFO, b => b == c.repository[PKG_INFO]);
    } else {
      assert !HasRight(files, PROVENANCE, b => b == c.repository[PROVENANCE]);
    }
  }

  lemma NamedOnce(tar: Tar, names: seq<string>, name: string)
    requires |tar| == |names| && Distinct(names) && name in names
    requires forall k :: 0 <= k < |tar| ==> tar[k].kind == Regular && tar[k].member.name == names[k]
    ensures OneFileNamed(tar, name)
  {
    var k :| 0 <= k < |names| && names[k] == name;
    assert IsFileNamed(tar[k], name);
  }

  lemma EachNamedOnce(files: FileMap, name: string)
    requires name in files
    ensures OneFileNamed(TarOf(ArchiveOf(files)), name)
  {
    var tar, names := TarOf(ArchiveOf(files)), Sorted(files.Keys);
    AscendingIsDistinct(names);
    assert name in Elements(names);
    NamedOnce(tar, names, name);
  }

  lemma MatchesIsRight(t: Tools, c: Candidate, fingerprint: string, files: FileMap)
    requires LawfulTools(t) && Matches(t, c, files)
    ensures HasRight(files, PKG_INFO, b => b == c.metadata)
    ensures
      var statement := SdistStatement(t, c, fingerprint);
      HasRight(files, PROVENANCE, b => IsRecorded(t, b, SdistDigest(t, c), statement)) <==> fingerprint == c.fingerprint
  {
    assert PKG_INFO in Paths(c) && PROVENANCE in Paths(c);
    assert files[In(PROVENANCE)] == Embedded(t, c);
    assert t.load(Embedded(t, c)) == Some(SdistStatement(t, c, c.fingerprint));
  }

  /**
   Builder and verifier agree: the finalised source distribution is accepted if and only if the
   binding carries the candidate's fingerprint, the archive is within bounds, the repository itself
   has nothing different under the two reserved names, and version, schema and project file are right.
   */
  lemma FinalizedSdistAccepted(t: Tools, pyprojectOk: Bytes -> bool, c: Candidate, fingerprint: string)
    requires LawfulTools(t) && ValidCandidate(c)
    ensures AcceptsSdist(t, pyprojectOk, c, fingerprint, SdistDigest(t, c), ReleasedSdist(t, c)) <==>
            && Bounded(ArchiveOf(SdistFiles(t, c))) && NothingClobbered(t, c)
            && SdistContentsRight(t, pyprojectOk, c) && fingerprint == c.fingerprint
  {
    ReleasedFiles(t, c);
    assert PKG_INFO in Paths(c);
    EachNamedOnce(SdistFiles(t, c), In(PKG_INFO));
    MatchingFilesAccepted(t, pyprojectOk, c, fingerprint, SdistFiles(t, c));
  }

  lemma MatchingFilesAccepted(t: Tools, pyprojectOk: Bytes -> bool, c: Candidate, fingerprint: string, files: FileMap)
    requires LawfulTools(t) && Matches(t, c, files)
    ensures AcceptsFiles(t, pyprojectOk, c, fingerprint, SdistDigest(t, c), files) <==>
            NothingClobbered(t, c) && SdistContentsRight(t, pyprojectOk, c) && fingerprint == c.fingerprint
  {
    MatchesIsRight(t, c, fingerprint, files);
    SourcesRightIff(t, c, files);
    OtherPaths();
    RightIffHolds(t, c, files, VERSION, t.versionOk);
    RightIffHolds(t, c, files, WheelNames.SCHEMA, t.schemaOk);
    RightIffHolds(t, c, files, WheelNames.PYPROJECT, pyprojectOk);
  }

  /** Committing a different `PKG-INFO` at the root of any repository makes its own finalised distribution refused. */
  lemma CommittedPackageInfoRefused(t: Tools, pyprojectOk: Bytes -> bool, c: Candidate, other: Bytes)
    requires LawfulTools(t) && ValidCandidate(c) && PKG_INFO !in c.repository && other != c.metadata
    ensures
      var d := c.(listing := c.listing + [PKG_INFO], repository := c.repository[PKG_INFO := other]);
      ValidCandidate(d) && !AcceptsSdist(t, pyprojectOk, d, d.fingerprint, SdistDigest(t, d), ReleasedSdist(t, d))
  {
    var d := c.(listing := c.listing + [PKG_INFO], repository := c.repository[PKG_INFO := other]);
    ReservedAreFileNames();
    assert Elements(d.listing) == Elements(c.listing) + {PKG_INFO};
    FinalizedSdistAccepted(t, pyprojectOk, d, d.fingerprint);
  }

  lemma OtherPaths()
    ensures VERSION != PKG_INFO && VERSION != PROVENANCE
    ensures WheelNames.SCHEMA != PKG_INFO && WheelNames.SCHEMA != PROVENANCE
    ensures WheelNames.PYPROJECT != PKG_INFO && WheelNames.PYPROJECT != PROVENANCE
  {
    assert VERSION[0] == 's' && PKG_INFO[0] == 'P' && PROVENANCE[0] == 'a' && WheelNames.SCHEMA[0] == 's' &&
           WheelNames.PYPROJECT[0] == 'p';
  }

  /**
   Whatever source distribution is accepted, built by whom ever: its files are exactly the expected
   ones, each but the provenance has the candidate's content, and the provenance states the candidate
   under the recorded digest.
   */
  lemma AcceptedSdistIsCandidate(t: Tools, pyprojectOk: Bytes -> bool, c: Candidate, fingerprint: string,
                                 digest: string, tar: Tar)
    requires AcceptsSdist(t, pyprojectOk, c, fingerprint, digest, tar)
    ensures
      var files := Files(tar);
      && files.Keys == (set p | p in Paths(c) :: In(p))
      && (forall p :: p in Paths(c) && p != PROVENANCE ==> Some(files[In(p)]) == ContentAt(t, c, p))
      && IsRecorded(t, files[In(PROVENANCE)], digest, SdistStatement(t, c, fingerprint))
  {
    var files := Files(tar);
    forall p | p in Paths(c) && p != PROVENANCE ensures Some(files[In(p)]) == ContentAt(t, c, p) {
      assert In(p) in files;
      assert p in c.repository ==> HasRight(files, p, b => b == c.repository[p]);
    }
  }

  /** With the builder's provenance bytes it is the finalised distribution, file for file. */
  lemma AcceptedWithBuiltProvenance(t: Tools, pyprojectOk: Bytes -> bool, c: Candidate, fingerprint: string,
                                    digest: string, tar: Tar)
    requires AcceptsSdist(t, pyprojectOk, c, fingerprint, digest, tar) && Files(tar)[In(PROVENANCE)] == Embedded(t, c)
    ensures Files(tar) == SdistFiles(t, c)
  {
    AcceptedSdistIsCandidate(t, pyprojectOk, c, fingerprint, digest, tar);
    MatchIsUnique(t, c, Files(tar), SdistFiles(t, c));
  }

  /** A directory among the members does not matter, as long as the archive stays within bounds; a link or a special
      file is refused. */
  lemma DirectoryDoesNotMatter(t: Tools, pyprojectOk: Bytes -> bool, c: Candidate, fingerprint: string, digest: string,
                               tar: Tar, e: Entry)
    requires Bounded(Members(tar)) && Bounded(Members(tar + [e]))
    ensures e.kind.Directory? ==>
              (AcceptsSdist(t, pyprojectOk, c, fingerprint, digest, tar + [e]) <==>
               AcceptsSdist(t, pyprojectOk, c, fingerprint, digest, tar))
    ensures e.kind.Link? || e.kind.Special? ==> !AcceptsSdist(t, pyprojectOk, c, fingerprint, digest, tar + [e])
  {
    assert (tar + [e])[|tar|] == e && (tar + [e])[..|tar|] == tar;
    if e.kind.Directory? {
      assert Files(tar + [e]) == Files(tar);
      OneFileMore(tar, e, In(PKG_INFO));
      assert forall k :: 0 <= k < |tar| ==> (tar + [e])[k] == tar[k];
    }
  }

  lemma OneFileMore(tar: Tar, e: Entry, name: string)
    requires e.kind != Regular
    ensures OneFileNamed(tar + [e], name) <==> OneFileNamed(tar, name)
  {
    var all := tar + [e];
    assert forall k :: 0 <= k < |tar| ==> all[k] == tar[k];
    if OneFileNamed(all, name) {
      var k :| 0 <= k < |all| && IsFileNamed(all[k], name)
               && forall j :: 0 <= j < |all| && IsFileNamed(all[j], name) ==> j == k;
      assert k < |tar| && IsFileNamed(tar[k], name);
      forall j | 0 <= j < |tar| && IsFileNamed(tar[j], name) ensures j == k { assert IsFileNamed(all[j], name); }
    }
    if OneFileNamed(tar, name) {
      var k :| 0 <= k < |tar| && IsFileNamed(tar[k], name)
               && forall j :: 0 <= j < |tar| && IsFileNamed(tar[j], name) ==> j == k;
      assert IsFileNamed(all[k], name);
      forall j | 0 <= j < |all| && IsFileNamed(all[j], name) ensures j == k { assert j < |tar|; }
    }
  }
}

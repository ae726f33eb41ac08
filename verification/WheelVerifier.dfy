/** The verifier of a release wheel, and its agreement with the builder. */
module WheelVerifier {
  import opened ByteText
  import opened ArchivePlan
  import opened WheelNames
  import opened WheelPlan
  import Csv

  /** The checks on single contents and on the whole archive that the verifier calls. */
  datatype Checks = Checks(
    bounded: Archive -> bool, versionOk: Bytes -> bool, schemaOk: Bytes -> bool, provenanceOk: Bytes -> bool)

  /** Exactly one name looks like this metadata file, and it is the right one. */
  ghost predicate Unambiguous(N: Naming, names: set<string>, x: DistName) {
    N.dist(x) in names && forall n :: n in names && N.endsLike(n, x) ==> n == N.dist(x)
  }

  /** The metadata files are unambiguous and those with a fixed content have it. */
  ghost predicate MetadataFits(N: Naming, w: Parts, files: FileMap) {
    && (forall x: DistName :: x.Metadata? || x.Wheel? || x.EntryPoints? || x.Record? || x.Provenance? ==>
          Unambiguous(N, files.Keys, x))
    && (forall x: DistName :: !x.Provenance? && w.content(x).Some? ==>
          N.dist(x) in files && files[N.dist(x)] == w.content(x).value)
  }

  /** Every source is in the package under its name, byte for byte. */
  ghost predicate SourcesFit(N: Naming, w: Parts, files: FileMap) {
    && (set n | n in files.Keys && N.inPackage(n)) == PackedNames(N, w)
    && (forall n :: n in w.sources ==> N.pack(n) in files && files[N.pack(n)] == w.sources[n])
  }

  ghost predicate ContentsFit(k: Checks, N: Naming, files: FileMap) {
    && N.versionSource in files && k.versionOk(files[N.versionSource])
    && N.packagedSchema in files && k.schemaOk(files[N.packagedSchema])
    && N.dist(Provenance) in files && k.provenanceOk(files[N.dist(Provenance)])
  }

  /** The verdict of the verifier. */
  ghost predicate Accepts(k: Checks, lib: Library, N: Naming, w: Parts, archive: Archive) {
    var files := FilesOf(archive);
    && k.bounded(archive)
    && MetadataFits(N, w, files)
    && files.Keys == ExpectedNames(N, w)
    && SourcesFit(N, w, files)
    && ContentsFit(k, N, files)
    && RecordFits(lib, files, N.dist(Record))
  }

  // ----- completeness

  /** Two sources that share a name in the package have the same content. */
  ghost predicate Consistent(N: Naming, w: Parts) {
    forall a, b :: a in w.sources && b in w.sources && N.pack(a) == N.pack(b) ==> w.sources[a] == w.sources[b]
  }

  lemma ContentOfFixed(lib: Library, N: Naming, w: Parts, x: DistName)
    requires ValidParts(N, w) && w.content(x).Some?
    ensures N.dist(x) in CanonicalContent(lib, N, w) && CanonicalContent(lib, N, w)[N.dist(x)] == w.content(x).value
  {
    FixedHas(N, w, x);
    PlanIsWellFormed(N, w);
  }

  lemma ContentOfPacked(lib: Library, N: Naming, w: Parts, n: string) returns (m: string)
    requires ValidParts(N, w) && n in w.sources
    ensures N.pack(n) in CanonicalContent(lib, N, w)
    ensures m in w.sources && N.pack(m) == N.pack(n) && CanonicalContent(lib, N, w)[N.pack(n)] == w.sources[m]
  {
    PlanIsWellFormed(N, w);
    m := PlanContent(lib, PlanOf(N, w), n);
  }

  lemma PlanContent(lib: Library, p: Plan, n: string) returns (m: string)
    requires ArchivePlan.WellFormed(p) && n in p.sources
    ensures p.pack(n) in CanonicalFiles(lib, p)
    ensures m in p.sources && p.pack(m) == p.pack(n) && CanonicalFiles(lib, p)[p.pack(n)] == p.sources[m]
  {
    InListing(p);
    PackedHolds(p.listing, p.sources, p.pack);
    var packed := Packed(p.listing, p.sources, p.pack);
    assert n in p.listing && p.pack(n) in packed;
    m :| m in p.listing && p.pack(m) == p.pack(n) && p.sources[m] == packed[p.pack(n)];
  }

  /** What the canonical content is, name by name, apart from RECORD. */
  ghost predicate Shape(N: Naming, w: Parts, files: FileMap) {
    && files.Keys == ExpectedNames(N, w)
    && (forall x :: w.content(x).Some? ==> N.dist(x) in files && files[N.dist(x)] == w.content(x).value)
    && (forall n :: n in w.sources ==> PackedFrom(N, w, files, n))
  }

  ghost predicate PackedFrom(N: Naming, w: Parts, files: FileMap, n: string) {
    N.pack(n) in files && exists m :: m in w.sources && N.pack(m) == N.pack(n) && files[N.pack(n)] == w.sources[m]
  }

  lemma CanonicalShape(lib: Library, N: Naming, w: Parts)
    requires ValidParts(N, w)
    ensures Shape(N, w, CanonicalContent(lib, N, w))
  {
    CanonicalNames(lib, N, w);
    forall x | w.content(x).Some?
      ensures N.dist(x) in CanonicalContent(lib, N, w) && CanonicalContent(lib, N, w)[N.dist(x)] == w.content(x).value
    {
      ContentOfFixed(lib, N, w, x);
    }
    forall n | n in w.sources ensures PackedFrom(N, w, CanonicalContent(lib, N, w), n) {
      var m := ContentOfPacked(lib, N, w, n);
    }
  }

  /** A file of the package comes from a source. */
  lemma PackedContent(N: Naming, w: Parts, files: FileMap, m: string) returns (s: string)
    requires ValidParts(N, w) && Shape(N, w, files) && m in files && N.inPackage(m)
    ensures s in w.sources && N.pack(s) == m && files[m] == w.sources[s]
  {
    FixedNamesAreDist(N, w);
    assert m in PackedNames(N, w);
    var r :| r in w.sources && N.pack(r) == m;
    assert PackedFrom(N, w, files, r);
    s :| s in w.sources && N.pack(s) == N.pack(r) && files[N.pack(r)] == w.sources[s];
  }

  lemma PackageNamesAre(N: Naming, w: Parts, names: set<string>)
    requires ValidParts(N, w) && names == ExpectedNames(N, w)
    ensures (set n | n in names && N.inPackage(n)) == PackedNames(N, w)
  {
    FixedNamesAreDist(N, w);
    forall n ensures n in names && N.inPackage(n) <==> n in PackedNames(N, w) {
      if n in PackedNames(N, w) { assert N.inPackage(n); }
    }
  }

  /** The canonical package holds every source exactly when the naming is consistent. */
  lemma SourcesFitIffConsistent(N: Naming, w: Parts, files: FileMap)
    requires ValidParts(N, w) && Shape(N, w, files)
    ensures SourcesFit(N, w, files) <==> Consistent(N, w)
  {
    PackageNamesAre(N, w, files.Keys);
    if Consistent(N, w) {
      forall n | n in w.sources ensures N.pack(n) in files && files[N.pack(n)] == w.sources[n] {
        assert PackedFrom(N, w, files, n);
      }
    }
  }

  lemma ShapeIsUnambiguous(N: Naming, w: Parts, names: set<string>, x: DistName)
    requires ValidParts(N, w) && PackageIsPlain(N, w) && names == ExpectedNames(N, w)
    requires x.Record? || w.content(x).Some?
    ensures Unambiguous(N, names, x)
  {
    if !x.Record? { FixedHas(N, w, x); }
    forall n | n in names && N.endsLike(n, x) ensures n == N.dist(x) {
      assert n !in PackedNames(N, w);
      if n in FixedFiles(N, w) { var y := FixedOnly(N, w, n); }
    }
  }

  lemma ShapeMetadataFits(N: Naming, w: Parts, files: FileMap)
    requires ValidParts(N, w) && PackageIsPlain(N, w) && Shape(N, w, files)
    ensures MetadataFits(N, w, files)
  {
    forall x: DistName | !x.License? ensures Unambiguous(N, files.Keys, x) {
      ShapeIsUnambiguous(N, w, files.Keys, x);
    }
  }

  /** What the candidate alone must satisfy for its canonical wheel to be accepted. */
  ghost predicate Fit(k: Checks, lib: Library, N: Naming, w: Parts)
    requires ValidParts(N, w)
  {
    && k.bounded(CanonicalWheel(lib, N, w))
    && Consistent(N, w)
    && ContentsFit(k, N, CanonicalContent(lib, N, w))
  }

  /**
   The wheel that the builder makes from an allowed inventory is accepted by the verifier if and
   only if the candidate is fit: archive bounds, consistent naming, and its version, schema and
   provenance contents.  In particular names, RECORD and metadata never fail.
   */
  lemma FinalizedAcceptedIffFit(k: Checks, lib: Library, N: Naming, w: Parts, built: Archive)
    requires Lawful(lib) && ValidParts(N, w)
    requires InventoryOk(N, w, FilesOf(built).Keys)
    ensures Accepts(k, lib, N, w, CanonicalWheel(lib, N, w)) <==> Fit(k, lib, N, w)
  {
    SomeInventoryIsPlain(N, w, FilesOf(built).Keys);
    CanonicalNames(lib, N, w);
    CanonicalShape(lib, N, w);
    ShapeMetadataFits(N, w, CanonicalContent(lib, N, w));
    SourcesFitIffConsistent(N, w, CanonicalContent(lib, N, w));
    PlanIsWellFormed(N, w);
    WrittenRecordFits(lib, PlanOf(N, w));
  }

  lemma InconsistentRefused(k: Checks, lib: Library, N: Naming, w: Parts)
    requires ValidParts(N, w) && !Consistent(N, w)
    ensures !Accepts(k, lib, N, w, CanonicalWheel(lib, N, w))
  {
    CanonicalNames(lib, N, w);
    CanonicalShape(lib, N, w);
    SourcesFitIffConsistent(N, w, CanonicalContent(lib, N, w));
  }

  // ----- soundness

  /**
   Whatever wheel the verifier accepts, it has exactly the canonical names, agrees with the
   canonical wheel on every file but RECORD and provenance, and its RECORD has one correct row per file.
   */
  lemma AcceptedIsCanonical(k: Checks, lib: Library, N: Naming, w: Parts, archive: Archive)
    requires ValidParts(N, w) && Accepts(k, lib, N, w, archive)
    ensures
      var files, canonical := FilesOf(archive), CanonicalContent(lib, N, w);
      && files.Keys == canonical.Keys
      && (forall n :: n in files && n != N.dist(Record) && n != N.dist(Provenance) ==> files[n] == canonical[n])
      && k.provenanceOk(files[N.dist(Provenance)])
      && RecordFits(lib, files, N.dist(Record))
  {
    CanonicalShape(lib, N, w);
    SameShape(N, w, FilesOf(archive), CanonicalContent(lib, N, w));
  }

  lemma SamePacked(N: Naming, w: Parts, files: FileMap, canonical: FileMap, s: string)
    requires s in w.sources && SourcesFit(N, w, files) && PackedFrom(N, w, canonical, s)
    ensures N.pack(s) in files && files[N.pack(s)] == canonical[N.pack(s)]
  {
    var m :| m in w.sources && N.pack(m) == N.pack(s) && canonical[N.pack(s)] == w.sources[m];
  }

  lemma SameFixed(N: Naming, w: Parts, files: FileMap, canonical: FileMap, n: string)
    requires ValidParts(N, w) && Shape(N, w, canonical) && MetadataFits(N, w, files)
    requires n in FixedFiles(N, w) && n != N.dist(Provenance)
    ensures n in files && n in canonical && files[n] == canonical[n]
  {
    var x := FixedOnly(N, w, n);
  }

  lemma SameShape(N: Naming, w: Parts, files: FileMap, canonical: FileMap)
    requires ValidParts(N, w) && Shape(N, w, canonical)
    requires MetadataFits(N, w, files) && SourcesFit(N, w, files) && files.Keys == ExpectedNames(N, w)
    ensures forall n :: n in files && n != N.dist(Record) && n != N.dist(Provenance) ==> files[n] == canonical[n]
  {
    forall n | n in files && n != N.dist(Record) && n != N.dist(Provenance) ensures files[n] == canonical[n] {
      if n in FixedFiles(N, w) {
        SameFixed(N, w, files, canonical, n);
      } else {
        assert n in PackedNames(N, w);
        var s :| s in w.sources && N.pack(s) == n;
        SamePacked(N, w, files, canonical, s);
      }
    }
  }

  /** The verifier's loop over the RECORD rows. */
  method CheckRecord(lib: Library, files: FileMap, record: string) returns (ok: bool)
    requires record in files
    ensures ok <==> RecordFits(lib, files, record)
    ensures ok ==> RecordStates(lib, files, record)
  {
    var text := lib.decode(files[record]);
    if text.None? {
      return false;
    }
    var rows := Csv.ReadRows(text.value);
    if rows.None? || exists k :: 0 <= k < |rows.value| && |rows.value[k]| != 3 {
      return false;
    }
    var table := Table(rows.value);
    if |table| != |rows.value| || table.Keys != files.Keys {
      return false;
    }
    var d := Describe(lib);
    ok := CheckRows(d, table, files, record);
    if ok { FittingRecordStates(lib, files, record); }
  }

  method CheckRows(d: Description, table: map<string, (string, string)>, files: FileMap, record: string)
    returns (ok: bool)
    requires record in files && table.Keys == files.Keys
    ensures ok <==> TableFits(d, table, files, record)
  {
    var todo := files.Keys - {record};
    while todo != {}
      invariant todo <= files.Keys - {record}
      invariant forall n :: n in files.Keys - {record} - todo ==> table[n] == d(files[n])
      decreases todo
    {
      var n :| n in todo;
      if table[n] != d(files[n]) {
        return false;
      }
      todo := todo - {n};
    }
    return table[record] == ("", "");
  }
}

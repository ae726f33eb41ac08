/** The plan of a wheel, from its packed sources and the contents of its metadata files. */
module WheelPlan {
  import opened Options
  import opened ByteText
  import opened Counting
  import opened ArchivePlan
  import opened WheelNames

  /** The packed sources in listing order, and the content of each metadata file the wheel has. */
  datatype Parts = Parts(listing: seq<string>, sources: FileMap, content: DistName -> Option<Bytes>)

  ghost predicate ValidParts(N: Naming, w: Parts) {
    && Good(N)
    && Elements(w.listing) == w.sources.Keys
    && (forall n :: n in w.sources ==> N.isPackaged(n) && FileName(n))
    && w.content(Record).None?
    && w.content(Metadata).Some? && w.content(Wheel).Some?
    && w.content(EntryPoints).Some? && w.content(Provenance).Some?
  }

  /** The metadata files in the order in which they are set. */
  const ORDER: seq<DistName> := [License, Metadata, Wheel, EntryPoints, Provenance]

  function OrderNames(N: Naming): (names: seq<string>)
    ensures |names| == |ORDER| && forall k :: 0 <= k < |names| ==> names[k] == N.dist(ORDER[k])
  {
    seq(|ORDER|, k requires 0 <= k < |ORDER| => N.dist(ORDER[k]))
  }

  function OrderContents(w: Parts): (contents: seq<Option<Bytes>>)
    ensures |contents| == |ORDER| && forall k :: 0 <= k < |contents| ==> contents[k] == w.content(ORDER[k])
  {
    seq(|ORDER|, k requires 0 <= k < |ORDER| => w.content(ORDER[k]))
  }

  function FixedFiles(N: Naming, w: Parts): FileMap {
    Overlay(OrderNames(N), OrderContents(w))
  }

  function PlanOf(N: Naming, w: Parts): Plan {
    Plan(w.listing, w.sources, N.pack, FixedFiles(N, w), N.dist(Record))
  }

  lemma InOrder(x: DistName)
    ensures !x.Record? ==> exists k :: 0 <= k < |ORDER| && ORDER[k] == x
  {
    assert ORDER[0] == License && ORDER[1] == Metadata && ORDER[2] == Wheel && ORDER[3] == EntryPoints &&
           ORDER[4] == Provenance;
  }

  lemma OrderNamesDistinct(N: Naming)
    requires Good(N)
    ensures Distinct(OrderNames(N))
  {
    forall i, j | 0 <= i < j < |ORDER| ensures N.dist(ORDER[i]) != N.dist(ORDER[j]) { assert ORDER[i] != ORDER[j]; }
  }

  /** Exactly the metadata files that have a content are there, each with it. */
  lemma FixedHas(N: Naming, w: Parts, x: DistName)
    requires ValidParts(N, w) && w.content(x).Some?
    ensures N.dist(x) in FixedFiles(N, w) && FixedFiles(N, w)[N.dist(x)] == w.content(x).value
  {
    OrderNamesDistinct(N);
    OverlayHolds(OrderNames(N), OrderContents(w));
    InOrder(x);
    var k :| 0 <= k < |ORDER| && ORDER[k] == x;
    assert OrderNames(N)[k] == N.dist(x) && OrderContents(w)[k] == w.content(x);
  }

  lemma FixedOnly(N: Naming, w: Parts, m: string) returns (x: DistName)
    requires ValidParts(N, w) && m in FixedFiles(N, w)
    ensures w.content(x).Some? && N.dist(x) == m
  {
    OrderNamesDistinct(N);
    OverlayHolds(OrderNames(N), OrderContents(w));
    var k :| 0 <= k < |ORDER| && OrderContents(w)[k].Some? && OrderNames(N)[k] == m;
    x := ORDER[k];
  }

  lemma FixedNamesAreDist(N: Naming, w: Parts)
    requires ValidParts(N, w)
    ensures N.dist(Record) !in FixedFiles(N, w)
    ensures forall m :: m in FixedFiles(N, w) ==> FileName(m) && !N.inPackage(m) && N.firstPart(m) == N.distInfo
  {
    forall m | m in FixedFiles(N, w)
      ensures FileName(m) && !N.inPackage(m) && N.firstPart(m) == N.distInfo && m != N.dist(Record)
    {
      var x := FixedOnly(N, w, m);
    }
  }

  lemma PlanIsWellFormed(N: Naming, w: Parts)
    requires ValidParts(N, w)
    ensures WellFormed(PlanOf(N, w))
  {
    FixedNamesAreDist(N, w);
  }

  // ----- inventories

  function PackedNames(N: Naming, w: Parts): set<string> {
    set n | n in w.sources :: N.pack(n)
  }

  /** The names a finished wheel has. */
  function ExpectedNames(N: Naming, w: Parts): set<string> {
    PackedNames(N, w) + FixedFiles(N, w).Keys + {N.dist(Record)}
  }

  function DistParts(N: Naming, names: set<string>): set<string> {
    set n | n in names && N.inDistInfo(n) :: N.firstPart(n)
  }

  /** What the builder demands of a built wheel: one dist-info directory, and exactly the expected names with or without
      provenance. */
  predicate InventoryOk(N: Naming, w: Parts, names: set<string>) {
    && DistParts(N, names) == {N.distInfo}
    && (names == ExpectedNames(N, w) || names == ExpectedNames(N, w) - {N.dist(Provenance)})
  }

  /** No packed source mentions a dist-info directory in its name. */
  ghost predicate PackageIsPlain(N: Naming, w: Parts) {
    forall n :: n in w.sources ==> !N.inDistInfo(N.pack(n))
  }

  lemma PlainHasOneDist(N: Naming, w: Parts, names: set<string>)
    requires ValidParts(N, w) && PackageIsPlain(N, w) && names <= ExpectedNames(N, w) && N.dist(Metadata) in names
    ensures DistParts(N, names) == {N.distInfo}
  {
    FixedNamesAreDist(N, w);
    assert N.firstPart(N.dist(Metadata)) in DistParts(N, names);
    forall n | n in names && N.inDistInfo(n) ensures N.firstPart(n) == N.distInfo {}
  }

  lemma OneDistIsPlain(N: Naming, w: Parts, names: set<string>)
    requires ValidParts(N, w) && DistParts(N, names) == {N.distInfo} && PackedNames(N, w) <= names
    ensures PackageIsPlain(N, w)
  {
    forall n | n in w.sources ensures !N.inDistInfo(N.pack(n)) {
      assert N.pack(n) in PackedNames(N, w);
      assert N.inDistInfo(N.pack(n)) ==> N.firstPart(N.pack(n)) in DistParts(N, names);
    }
  }

  lemma SomeInventoryIsPlain(N: Naming, w: Parts, names: set<string>)
    requires ValidParts(N, w) && InventoryOk(N, w, names)
    ensures PackageIsPlain(N, w)
  {
    forall n | n in PackedNames(N, w) ensures n in names { assert N.inPackage(n) && !N.inPackage(N.dist(Provenance)); }
    OneDistIsPlain(N, w, names);
  }

  // ----- the canonical wheel

  ghost function CanonicalContent(lib: Library, N: Naming, w: Parts): FileMap
    requires ValidParts(N, w)
  {
    PlanIsWellFormed(N, w);
    CanonicalFiles(lib, PlanOf(N, w))
  }

  ghost function CanonicalWheel(lib: Library, N: Naming, w: Parts): Archive
    requires ValidParts(N, w)
  {
    ArchiveOf(CanonicalContent(lib, N, w))
  }

  lemma CanonicalNames(lib: Library, N: Naming, w: Parts)
    requires ValidParts(N, w)
    ensures CanonicalContent(lib, N, w).Keys == ExpectedNames(N, w)
    ensures FilesOf(CanonicalWheel(lib, N, w)) == CanonicalContent(lib, N, w)
  {
    var p := PlanOf(N, w);
    PlanIsWellFormed(N, w);
    CanonicalHolds(lib, p);
    assert PackNames(p) == PackedNames(N, w);
  }

  /** Whatever the built wheel contained: once every expected name but RECORD is overwritten, the body is the plan's. */
  lemma OverwrittenIsBody(N: Naming, w: Parts, built: FileMap)
    requires ValidParts(N, w) && built.Keys <= ExpectedNames(N, w)
    ensures
      var p := PlanOf(N, w);
      && (forall n :: n in w.listing ==> n in w.sources)
      && (built + Packed(w.listing, w.sources, N.pack) + FixedFiles(N, w)) - {N.dist(Record)} == Body(p)
  {
    var p := PlanOf(N, w);
    PlanIsWellFormed(N, w);
    BodyNames(p);
    InListing(p);
    var packed := Packed(w.listing, w.sources, N.pack);
    assert PackNames(p) == PackedNames(N, w);
    assert Body(p).Keys == packed.Keys + p.fixed.Keys;
    NothingBuiltRemains(built, packed, p.fixed, p.record);
  }

  /**
   Rewriting a built wheel.  It succeeds exactly on an allowed inventory, and then the result is the
   canonical wheel, whatever the built wheel contained and in whatever order.
   */
  method Finalize(lib: Library, N: Naming, w: Parts, built: Archive) returns (r: Option<Archive>)
    requires ValidParts(N, w)
    ensures r.Some? <==> InventoryOk(N, w, FilesOf(built).Keys)
    ensures r.Some? ==> r.value == CanonicalWheel(lib, N, w)
  {
    var files := FilesOf(built);
    if !InventoryOk(N, w, files.Keys) {
      return None;
    }
    OverwrittenIsBody(N, w, files);
    PlanIsWellFormed(N, w);
    files := CopySources(w.listing, w.sources, N.pack, files);
    files := SetFiles(OrderNames(N), OrderContents(w), files);
    files := files - {N.dist(Record)};
    var record := WriteRecord(lib, files, N.dist(Record));
    files := files[N.dist(Record) := record];
    var a := WriteArchive(files);
    return Some(a);
  }

  /** Finalising a finalised wheel is allowed again, so by `Finalize` it changes nothing. */
  lemma FinalizedAgain(lib: Library, N: Naming, w: Parts, names: set<string>)
    requires ValidParts(N, w) && InventoryOk(N, w, names)
    ensures InventoryOk(N, w, FilesOf(CanonicalWheel(lib, N, w)).Keys)
  {
    CanonicalNames(lib, N, w);
    SomeInventoryIsPlain(N, w, names);
    FixedHas(N, w, Metadata);
    PlainHasOneDist(N, w, ExpectedNames(N, w));
  }
}

/**
 A traceability document that meets every condition but one: two requirements name one architecture
 component, each in a spelling of its own.
 */
module SpellingExample {
  import opened Options
  import opened Counting
  import opened RequirementKeys
  import opened ArchitectureNames
  import opened TraceScan
  import opened Traceability

  const FIRST := "REQ-F-001"
  const SECOND := "REQ-F-002"
  const REQUIREMENTS: set<string> := {FIRST, SECOND}

  /** One requirement with one owner. */
  function Owned(key: string, owner: string): Entry {
    Entry(key, Items([Text(owner)]))
  }

  /** Both requirements have the component `a`; the second one spells it `x`. Every other map says `X` for both. */
  function EntriesOf(k: Kind, x: string): seq<Entry> {
    if k == Architecture then [Owned(FIRST, "a"), Owned(SECOND, x)] else [Owned(FIRST, "X"), Owned(SECOND, "X")]
  }

  function CatalogFor(k: Kind): string {
    if k == Architecture then "a" else "X"
  }

  function Example(x: string): Document {
    Document(
      true,
      Some(map n | n in CATALOG_KEYS ::
             Items([Text(CatalogFor(if n == CatalogName(Architecture) then Architecture else Tasks))])),
      Some(map n | n in MAP_KEYS :: Entries(EntriesOf(if n == MapName(Architecture) then Architecture else Tasks, x))),
      Some(FullMetrics(2)))
  }

  function ExampleAuthority(): Authority {
    var all := map k: Kind | k in KINDS :: {CatalogFor(k)};
    Authority(REQUIREMENTS, (k: Kind) => {CatalogFor(k)}, map r | r in REQUIREMENTS :: all, 0)
  }

  // ----- names and keys

  lemma NamesTellArchitecture(k: Kind)
    ensures MapName(k) == MapName(Architecture) <==> k == Architecture
    ensures CatalogName(k) == CatalogName(Architecture) <==> k == Architecture
    ensures MapName(k) in MAP_KEYS && CatalogName(k) in CATALOG_KEYS
  {
    AllKinds();
    assert MapName(Architecture)[0] == 'a';
    if k != Architecture { assert MapName(k)[0] != 'a' && CatalogName(k)[0] != 'a'; }
  }

  lemma MapsOfExample(k: Kind, x: string)
    ensures MapOf(Example(x), k) == Entries(EntriesOf(k, x))
    ensures CatalogOf(Example(x), k) == Items([Text(CatalogFor(k))])
  {
    NamesTellArchitecture(k);
  }

  lemma KeyCovers(key: string, r: string)
    requires key == FIRST || key == SECOND
    ensures Covers(key, r) <==> r == key
    ensures !Descending(key)
  {
    assert |key| == 9 && RangeOf(key).None?;
  }

  lemma KeysDiffer()
    ensures FIRST != SECOND && |REQUIREMENTS| == 2
  {
    assert FIRST[8] == '1' && SECOND[8] == '2';
    assert REQUIREMENTS - {FIRST} == {SECOND};
  }

  lemma OwnerOf(key: string, owner: string)
    requires owner != ""
    ensures UsableNames(Owned(key, owner).owners) == Some([owner]) && OwnersOf(Parse(Owned(key, owner))) == {owner}
  {
    OneName(owner);
  }

  // ----- the conditions

  lemma CountTwo(d: Entry, e: Entry, p: Entry -> bool)
    ensures Count([d, e], p) == (if p(d) then 1 else 0) + (if p(e) then 1 else 0)
  {
    assert [d, e] == [d] + [e];
    CountSplits([d], [e], p);
    CountOne(d, p);
    CountOne(e, p);
  }

  lemma PairPartitions(one: string, other: string)
    requires one != "" && other != ""
    ensures EntriesPartition([Owned(FIRST, one), Owned(SECOND, other)], REQUIREMENTS)
  {
    var d, e := Owned(FIRST, one), Owned(SECOND, other);
    KeysDiffer();
    OwnerOf(FIRST, one);
    OwnerOf(SECOND, other);
    KeyCovers(FIRST, FIRST);
    KeyCovers(SECOND, SECOND);
    forall r ensures Count([d, e], Covering(r)) == if r in REQUIREMENTS then 1 else 0 {
      CountTwo(d, e, Covering(r));
      KeyCovers(FIRST, r);
      KeyCovers(SECOND, r);
    }
  }

  lemma PairMatches(one: string, other: string, normal: string -> string, name: string, expected: string -> set<string>)
    requires one != "" && other != "" && normal(one) == name && normal(other) == name
    requires expected(FIRST) == {name} && expected(SECOND) == {name}
    ensures EntriesMatch([Owned(FIRST, one), Owned(SECOND, other)], normal, expected)
  {
    var entries := [Owned(FIRST, one), Owned(SECOND, other)];
    OwnerOf(FIRST, one);
    OwnerOf(SECOND, other);
    forall e, r | e in entries && Covers(e.key, r) ensures NormalOwners(e, normal) == expected(r) {
      KeyCovers(e.key, r);
      assert e == entries[0] || e == entries[1];
    }
  }

  lemma PairSpelling(one: string, other: string, normal: string -> string)
    requires one != "" && other != "" && normal(one) == normal(other)
    ensures OneSpelling([Owned(FIRST, one), Owned(SECOND, other)], normal) <==> one == other
  {
    var d, e := Owned(FIRST, one), Owned(SECOND, other);
    OwnerOf(FIRST, one);
    OwnerOf(SECOND, other);
    if OneSpelling([d, e], normal) {
      assert d in [d, e] && e in [d, e] && one in OwnersOf(Parse(d)) && other in OwnersOf(Parse(e));
    }
  }

  lemma ExpectedIs(k: Kind, r: string)
    requires r in REQUIREMENTS
    ensures ExpectedFor(ExampleAuthority(), k, r) == {CatalogFor(k)}
  {
    AllKinds();
  }

  lemma NormalIs(k: Kind)
    ensures Normal(k)(CatalogFor(k)) == CatalogFor(k)
  {
    SpellingOfA();
  }

  /** The document meets every condition of the verdict theorem except the spelling. */
  ghost predicate OtherwiseRight(doc: Document, a: Authority) {
    && doc.headerOk && KeysExact(doc.definitions, CATALOG_KEYS) && KeysExact(doc.maps, MAP_KEYS)
    && AuthorityInOrder(doc, a)
    && (forall k :: MapOf(doc, k).Entries?)
    && (forall k :: EntriesPartition(MapOf(doc, k).entries, a.requirements))
    && (forall k :: EntriesMatch(MapOf(doc, k).entries, Normal(k), r => ExpectedFor(a, k, r)))
    && doc.metrics == Some(FullMetrics(|a.requirements|))
  }

  lemma OneDefinition(c: Target, name: string)
    requires c.catalog == Some([name]) && c.normal(name) == name && c.authority == {name}
    ensures CatalogOk(c)
  {
    assert Elements([name]) == {name};
  }

  lemma ExampleCatalog(k: Kind, x: string)
    ensures CatalogOk(TargetOf(Example(x), ExampleAuthority(), k))
  {
    MapsOfExample(k, x);
    NamesOfOne(CatalogFor(k));
    NormalIs(k);
    OneDefinition(TargetOf(Example(x), ExampleAuthority(), k), CatalogFor(k));
  }

  lemma NamesOfOne(name: string)
    ensures Names(Items([Text(name)])) == Some([name])
  {
    assert Names(Items([Text(name)])).value == [name];
  }

  lemma ExampleMap(k: Kind, x: string)
    requires x != "" && NormalName(x) == "a"
    ensures MapOf(Example(x), k) == Entries(EntriesOf(k, x))
    ensures EntriesPartition(EntriesOf(k, x), REQUIREMENTS)
    ensures EntriesMatch(EntriesOf(k, x), Normal(k), r => ExpectedFor(ExampleAuthority(), k, r))
    ensures k == Architecture ==> (OneSpelling(EntriesOf(k, x), Normal(k)) <==> x == "a")
  {
    var expected := r => ExpectedFor(ExampleAuthority(), k, r);
    var other := if k == Architecture then x else "X";
    MapsOfExample(k, x);
    NormalIs(k);
    ExpectedIs(k, FIRST);
    ExpectedIs(k, SECOND);
    PairPartitions(CatalogFor(k), other);
    PairMatches(CatalogFor(k), other, Normal(k), CatalogFor(k), expected);
    PairSpelling(CatalogFor(k), other, Normal(k));
  }

  lemma ExampleIsOtherwiseRight(x: string)
    requires x != "" && NormalName(x) == "a"
    ensures OtherwiseRight(Example(x), ExampleAuthority())
  {
    var doc, a := Example(x), ExampleAuthority();
    KeysDiffer();
    forall k ensures CatalogOk(TargetOf(doc, a, k)) { ExampleCatalog(k, x); }
    forall k, r | r in a.requirements ensures ExpectedFor(a, k, r) <= a.catalog(k) { ExpectedIs(k, r); }
    forall k
      ensures MapOf(doc, k).Entries?
      ensures EntriesPartition(MapOf(doc, k).entries, a.requirements)
      ensures EntriesMatch(MapOf(doc, k).entries, Normal(k), r => ExpectedFor(a, k, r))
    {
      ExampleMap(k, x);
    }
  }

  /** Where everything else is right, the verdict is the spelling of the architecture map. */
  lemma OnlySpellingLeft(doc: Document, a: Authority)
    requires OtherwiseRight(doc, a)
    ensures Passes(doc, a, a.requirements) <==> OneSpelling(MapOf(doc, Architecture).entries, Normal(Architecture))
  {
    PassesIffMapsAreRight(doc, a, a.requirements);
    forall k ensures MapIsRight(doc, a, k) <==> (k == Architecture ==> OneSpelling(MapOf(doc, k).entries, Normal(k))) {}
  }

  /** For every spelling of the component: the document is right in every other respect, and passes exactly when both
      spellings agree. */
  lemma SpellingDecides(x: string)
    requires x != "" && NormalName(x) == "a"
    ensures OtherwiseRight(Example(x), ExampleAuthority())
    ensures Passes(Example(x), ExampleAuthority(), ExampleAuthority().requirements) <==> x == "a"
  {
    ExampleIsOtherwiseRight(x);
    OnlySpellingLeft(Example(x), ExampleAuthority());
    ExampleMap(Architecture, x);
  }

  /** The input that fails: the component spelled `a` once and `A` once. */
  lemma TwoSpellingsRefused()
    ensures OtherwiseRight(Example("A"), ExampleAuthority())
    ensures !Passes(Example("A"), ExampleAuthority(), ExampleAuthority().requirements)
    ensures Passes(Example("a"), ExampleAuthority(), ExampleAuthority().requirements)
  {
    SpellingOfA();
    SpellingDecides("A");
    SpellingDecides("a");
    assert "A"[0] != "a"[0];
  }
}

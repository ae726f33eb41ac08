/**
 The traceability document: five maps checked against catalogs, against the expectations of the
 authority and against the published metrics.
 */
module Traceability {
  import opened Options
  import opened Counting
  import opened RequirementKeys
  import opened ArchitectureNames
  import opened TraceScan

  // ----- decoded YAML values

  /** A YAML value, as far as the code distinguishes: a string or something else. */
  datatype Raw = Text(text: string) | Other
  datatype RawList = NotAList | Items(items: seq<Raw>)

  /** The strings of a list of strings. */
  function Names(l: RawList): Option<seq<string>> {
    if l.NotAList? || exists k :: 0 <= k < |l.items| && l.items[k].Other? then None
    else Some(seq(|l.items|, k requires 0 <= k < |l.items| => l.items[k].text))
  }

  /** A non-empty list of distinct non-empty strings. */
  function UsableNames(l: RawList): Option<seq<string>> {
    var names := Names(l);
    if names.Some? && names.value != [] && "" !in names.value && Distinct(names.value) then names else None
  }

  /** A list of these strings. */
  function TextList(names: seq<string>): RawList {
    Items(seq(|names|, k requires 0 <= k < |names| => Text(names[k])))
  }

  /** The names of a list are read exactly when it is a list of strings. */
  lemma NamesMean(l: RawList, names: seq<string>)
    ensures Names(l) == Some(names) <==> l == TextList(names)
  {
    if Names(l) == Some(names) {
      assert forall k :: 0 <= k < |names| ==> l.items[k] == Text(names[k]);
      assert l.items == TextList(names).items;
    }
    if l == TextList(names) {
      assert forall k :: 0 <= k < |names| ==> l.items[k] == Text(names[k]);
      assert Names(l).Some? && Names(l).value == names;
    }
  }

  /** Usable owners are one or more different non-empty strings. */
  lemma UsableNamesMean(l: RawList, names: seq<string>)
    ensures UsableNames(l) == Some(names) <==>
            l == TextList(names) && |names| > 0 && Distinct(names) && forall k :: 0 <= k < |names| ==> names[k] != ""
  {
    NamesMean(l, names);
    if UsableNames(l) == Some(names) {
      forall k | 0 <= k < |names| ensures names[k] != "" { assert names[k] in names; }
    }
  }

  /** One entry: the key as a string, and its owners.  Different YAML keys can have the same string. */
  datatype Entry = Entry(key: string, owners: RawList)

  function Parse(e: Entry): Part {
    Part(e.key, Expand(e.key), UsableNames(e.owners))
  }

  function Parts(entries: seq<Entry>): seq<Part> {
    Mapped(entries, e => Parse(e))
  }

  lemma ParseMeans(e: Entry)
    ensures forall r :: Holds(Parse(e), r) <==> Covers(e.key, r)
    ensures Parse(e).requirements.None? <==> Descending(e.key)
    ensures Parse(e).requirements.Some? ==> Parse(e).requirements.value != {}
  {
    ExpandMeans(e.key);
  }

  method ScanEntries(entries: seq<Entry>) returns (t: Tally)
    ensures t == Scan(Parts(entries))
  {
    t := EMPTY;
    ghost var parts := Parts(entries);
    for k := 0 to |entries|
      invariant t == Scan(parts[..k])
    {
      assert parts[..k + 1][..k] == parts[..k];
      t := AddPart(t, Parse(entries[k]));
    }
    assert parts[..|entries|] == parts;
  }

  // ----- the document

  datatype Kind = Architecture | Ownership | Tasks | Evidence | Gates

  const KINDS: seq<Kind> := [Architecture, Ownership, Tasks, Evidence, Gates]

  function MapName(k: Kind): string {
    match k
    case Architecture => "architecture"
    case Ownership => "ownership"
    case Tasks => "tasks"
    case Evidence => "evidence"
    case Gates => "gates"
  }

  function CatalogName(k: Kind): string {
    if k == Ownership then "milestones" else MapName(k)
  }

  function Normal(k: Kind): string -> string {
    if k == Architecture then s => NormalName(s) else s => s
  }

  datatype RawMap = NotAMap | Entries(entries: seq<Entry>)

  /** The parts of the document the checks read; a part is missing where it is not an object.
      `headerOk` says that the top-level keys, version, source digests and policy are right. */
  datatype Document = Document(
    headerOk: bool,
    definitions: Option<map<string, RawList>>,
    maps: Option<map<string, RawMap>>,
    metrics: Option<map<string, int>>)

  /** What the project model prescribes. */
  datatype Authority = Authority(
    requirements: set<string>, catalog: Kind -> set<string>, expected: map<string, map<Kind, set<string>>>,
    problems: nat)

  function ExpectedFor(a: Authority, k: Kind, r: string): set<string> {
    if r in a.expected && k in a.expected[r] then a.expected[r][k] else {}
  }

  function MapOf(doc: Document, k: Kind): RawMap {
    if doc.maps.Some? && MapName(k) in doc.maps.value then doc.maps.value[MapName(k)] else NotAMap
  }

  function CatalogOf(doc: Document, k: Kind): RawList {
    if doc.definitions.Some? && CatalogName(k) in doc.definitions.value
    then doc.definitions.value[CatalogName(k)]
    else NotAList
  }

  function TargetOf(doc: Document, a: Authority, k: Kind): Target {
    Target(a.requirements, r => ExpectedFor(a, k, r), Names(CatalogOf(doc, k)), a.catalog(k), Normal(k))
  }

  datatype Problem =
    | HeaderMismatch
    | InAuthority
    | BaselineDiffers
    | NoDefinitions
    | DefinitionKeys
    | MapKeys
    | MissingMap(kind: Kind)
    | InMap(kind: Kind, error: TraceScan.Error)
    | MetricsMismatch

  datatype Report = Report(total: nat, traced: map<Kind, nat>, problems: seq<Problem>)

  function MetricName(k: Kind): string {
    MapName(k) + "_traced"
  }

  const TOTAL := "requirements_total"

  function ExpectedMetrics(total: nat, traced: Kind -> nat): map<string, int> {
    map[TOTAL := total, MetricName(Architecture) := traced(Architecture), MetricName(Ownership) := traced(Ownership),
        MetricName(Tasks) := traced(Tasks), MetricName(Evidence) := traced(Evidence),
        MetricName(Gates) := traced(Gates)]
  }

  /** The metrics of a document that traces everything. */
  function FullMetrics(total: nat): map<string, int> {
    ExpectedMetrics(total, k => total)
  }

  // ----- the verdict

  ghost predicate MapPasses(doc: Document, a: Authority, k: Kind) {
    MapOf(doc, k).Entries? && MapOk(Parts(MapOf(doc, k).entries), TargetOf(doc, a, k))
  }

  const MAP_KEYS: set<string> := set k | k in KINDS :: MapName(k)
  const CATALOG_KEYS: set<string> := set k | k in KINDS :: CatalogName(k)

  predicate KeysExact<V>(m: Option<map<string, V>>, keys: set<string>) {
    m.Some? && m.value.Keys == keys
  }

  ghost predicate Passes(doc: Document, a: Authority, documented: set<string>) {
    && doc.headerOk && a.problems == 0 && documented == a.requirements
    && KeysExact(doc.definitions, CATALOG_KEYS) && KeysExact(doc.maps, MAP_KEYS)
    && (forall k :: MapPasses(doc, a, k))
    && doc.metrics == Some(FullMetrics(|a.requirements|))
  }

  function Tagged(k: Kind, errors: seq<TraceScan.Error>): seq<Problem> {
    Mapped(errors, e => InMap(k, e))
  }

  lemma TaggedAre(k: Kind, errors: seq<TraceScan.Error>)
    ensures forall p :: p in Tagged(k, errors) <==> p.InMap? && p.kind == k && p.error in errors
  {
    forall e | e in errors ensures InMap(k, e) in Tagged(k, errors) {
      var n :| 0 <= n < |errors| && errors[n] == e;
      assert Tagged(k, errors)[n] == InMap(k, e);
    }
  }

  // ----- every message

  function ScanOf(doc: Document, k: Kind): Tally {
    if MapOf(doc, k).Entries? then Scan(Parts(MapOf(doc, k).entries)) else EMPTY
  }

  /** How many accepted requirements a map covers. */
  function TracedOf(doc: Document, a: Authority, k: Kind): nat {
    |a.requirements * ScanOf(doc, k).expanded|
  }

  ghost predicate IsMapProblem(doc: Document, a: Authority, k: Kind, e: TraceScan.Error) {
    && MapOf(doc, k).Entries?
    && (e in ScanOf(doc, k).errors || IsFinding(ScanOf(doc, k), TargetOf(doc, a, k), k == Architecture, e))
  }

  /** What the report says about a document, message by message; a wrong header hides everything else. */
  ghost predicate IsProblem(doc: Document, a: Authority, documented: set<string>, p: Problem) {
    if !doc.headerOk then p.HeaderMismatch? else
    match p
    case MissingMap(k) => MapOf(doc, k).NotAMap?
    case InMap(k, e) => IsMapProblem(doc, a, k, e)
    case MetricsMismatch => doc.metrics != Some(ExpectedMetrics(|a.requirements|, k => TracedOf(doc, a, k)))
    case _ => OfFrame(doc, a, documented, p)
  }

  predicate OfMap(p: Problem) {
    p.MissingMap? || p.InMap?
  }

  /** What one round of the loop over the maps has to say. */
  ghost predicate OfThisMap(doc: Document, a: Authority, k: Kind, p: Problem) {
    match p
    case MissingMap(kind) => kind == k && MapOf(doc, k).NotAMap?
    case InMap(kind, e) => kind == k && IsMapProblem(doc, a, k, e)
    case _ => false
  }

  /** One round of the loop over the maps. */
  method CheckMap(doc: Document, a: Authority, k: Kind) returns (problems: seq<Problem>, traced: nat)
    ensures forall p :: p in problems <==> OfThisMap(doc, a, k, p)
    ensures traced == TracedOf(doc, a, k)
  {
    var raw := MapOf(doc, k);
    if raw.NotAMap? {
      assert a.requirements * {} == {};
      return [MissingMap(k)], 0;
    }
    var c := TargetOf(doc, a, k);
    var t := ScanEntries(raw.entries);
    var coverage := CheckCoverage(t, c, k == Architecture);
    var catalog := CheckCatalog(t, c, k == Architecture);
    traced := |c.accepted * t.expanded|;
    var owners := CheckOwners(t, c, k == Architecture);
    var errors := t.errors + coverage + catalog + owners;
    AllFindings(t, c, k == Architecture, coverage, catalog, owners);
    TaggedAre(k, errors);
    problems := Tagged(k, errors);
  }

  lemma AllFindings(t: Tally, c: Target, architecture: bool, coverage: seq<TraceScan.Error>,
                    catalog: seq<TraceScan.Error>, owners: seq<TraceScan.Error>)
    requires forall e :: e in coverage <==> OfCoverage(e) && IsFinding(t, c, architecture, e)
    requires forall e :: e in catalog <==> OfCatalog(e) && IsFinding(t, c, architecture, e)
    requires forall e :: e in owners <==> e.Mismatch? && IsFinding(t, c, architecture, e)
    ensures forall e ::
              e in t.errors + coverage + catalog + owners <==> e in t.errors || IsFinding(t, c, architecture, e)
  {
  }

  ghost predicate OfFrame(doc: Document, a: Authority, documented: set<string>, p: Problem) {
    match p
    case InAuthority => a.problems > 0
    case BaselineDiffers => documented != a.requirements
    case NoDefinitions => doc.definitions.None?
    case DefinitionKeys => doc.definitions.Some? && doc.definitions.value.Keys != CATALOG_KEYS
    case MapKeys => !KeysExact(doc.maps, MAP_KEYS)
    case _ => false
  }

  /** The checks before the maps. */
  method CheckFrame(doc: Document, a: Authority, documented: set<string>) returns (problems: seq<Problem>)
    ensures forall p :: p in problems <==> OfFrame(doc, a, documented, p)
  {
    problems := seq(a.problems, k => InAuthority);
    assert InAuthority in problems <==> a.problems > 0 by { if a.problems > 0 { assert problems[0] == InAuthority; } }
    if documented != a.requirements {
      problems := problems + [BaselineDiffers];
    }
    if doc.definitions.None? {
      problems := problems + [NoDefinitions];
    } else if !KeysExact(doc.definitions, CATALOG_KEYS) {
      problems := problems + [DefinitionKeys];
    }
    if !KeysExact(doc.maps, MAP_KEYS) {
      problems := problems + [MapKeys];
    }
  }

  /** The loop over the maps. */
  method CheckMaps(doc: Document, a: Authority) returns (problems: seq<Problem>, traced: map<Kind, nat>)
    ensures forall p :: p in problems <==> exists k :: OfThisMap(doc, a, k, p)
    ensures forall k :: k in traced && traced[k] == TracedOf(doc, a, k)
  {
    problems, traced := [], map[];
    for i := 0 to |KINDS|
      invariant traced.Keys == set k | k in KINDS[..i]
      invariant forall p :: p in problems <==> exists k :: k in KINDS[..i] && OfThisMap(doc, a, k, p)
      invariant forall k :: k in KINDS[..i] ==> traced[k] == TracedOf(doc, a, k)
    {
      assert KINDS[..i + 1] == KINDS[..i] + [KINDS[i]];
      var found, count := CheckMap(doc, a, KINDS[i]);
      problems := problems + found;
      traced := traced[KINDS[i] := count];
    }
    AllKinds();
    assert KINDS[..|KINDS|] == KINDS;
  }

  /** `validate_traceability` from the decoded document on: the report says exactly what is wrong with the document, and
      passes exactly when the document does. */
  method Validate(doc: Document, a: Authority, documented: set<string>) returns (report: Report)
    ensures forall p :: p in report.problems <==> IsProblem(doc, a, documented, p)
    ensures report.problems == [] <==> Passes(doc, a, documented)
    ensures report.total == |a.requirements|
    ensures doc.headerOk ==> forall k :: k in report.traced && report.traced[k] == TracedOf(doc, a, k)
  {
    var n := |a.requirements|;
    if !doc.headerOk {
      return Report(n, map[], [HeaderMismatch]);
    }
    var frame := CheckFrame(doc, a, documented);
    var found, traced := CheckMaps(doc, a);
    var metrics := if doc.metrics != Some(ExpectedMetrics(n, k => traced[k])) then [MetricsMismatch] else [];
    SameMetrics(n, k => traced[k], k => TracedOf(doc, a, k));
    report := Report(n, traced, frame + found + metrics);
    AllProblems(doc, a, documented, frame, found, metrics);
    NoProblemMeans(doc, a, documented);
    assert report.problems != [] ==> IsProblem(doc, a, documented, report.problems[0]);
  }

  lemma AllProblems(doc: Document, a: Authority, documented: set<string>, frame: seq<Problem>, found: seq<Problem>,
                    metrics: seq<Problem>)
    requires doc.headerOk
    requires forall p :: p in frame <==> OfFrame(doc, a, documented, p)
    requires forall p :: p in found <==> exists k :: OfThisMap(doc, a, k, p)
    requires forall p :: p in metrics <==> p.MetricsMismatch? && IsProblem(doc, a, documented, p)
    ensures forall p :: p in frame + found + metrics <==> IsProblem(doc, a, documented, p)
  {
    forall p ensures (exists k :: OfThisMap(doc, a, k, p)) <==> OfMap(p) && IsProblem(doc, a, documented, p) {
      if OfMap(p) && IsProblem(doc, a, documented, p) { assert OfThisMap(doc, a, p.kind, p); }
    }
  }

  ghost predicate NoMapProblem(doc: Document, a: Authority, k: Kind) {
    forall p :: !OfThisMap(doc, a, k, p)
  }

  lemma NoMapProblemMeans(doc: Document, a: Authority, k: Kind)
    ensures NoMapProblem(doc, a, k) <==> MapPasses(doc, a, k)
  {
    assert OfThisMap(doc, a, k, MissingMap(k)) <==> MapOf(doc, k).NotAMap?;
    if MapOf(doc, k).Entries? {
      var t, c, architecture := ScanOf(doc, k), TargetOf(doc, a, k), k == Architecture;
      assert forall e :: e in t.errors || IsFinding(t, c, architecture, e) <==> OfThisMap(doc, a, k, InMap(k, e));
      assert t.errors != [] ==> OfThisMap(doc, a, k, InMap(k, t.errors[0]));
      assert forall e :: IsFinding(t, c, architecture, e) ==> OfThisMap(doc, a, k, InMap(k, e));
      NothingReported(Parts(MapOf(doc, k).entries), c, architecture);
    }
  }

  lemma ProblemsByCheck(doc: Document, a: Authority, documented: set<string>)
    requires doc.headerOk
    ensures (forall p :: !IsProblem(doc, a, documented, p)) <==>
      && (forall p :: !OfFrame(doc, a, documented, p))
      && (forall k :: NoMapProblem(doc, a, k))
      && !IsProblem(doc, a, documented, MetricsMismatch)
  {
    assert forall p, k :: OfThisMap(doc, a, k, p) ==> IsProblem(doc, a, documented, p);
    assert forall p :: OfMap(p) && IsProblem(doc, a, documented, p) ==> OfThisMap(doc, a, p.kind, p);
    assert forall p :: OfFrame(doc, a, documented, p) ==> IsProblem(doc, a, documented, p);
    if p :| IsProblem(doc, a, documented, p) {
      if OfMap(p) { assert !NoMapProblem(doc, a, p.kind); }
    }
  }

  /** There is nothing to report exactly on a document that passes. */
  lemma NoProblemMeans(doc: Document, a: Authority, documented: set<string>)
    ensures (forall p :: !IsProblem(doc, a, documented, p)) <==> Passes(doc, a, documented)
  {
    if doc.headerOk {
      ProblemsByCheck(doc, a, documented);
      NoFrameProblemMeans(doc, a, documented);
      forall k ensures NoMapProblem(doc, a, k) <==> MapPasses(doc, a, k) { NoMapProblemMeans(doc, a, k); }
      if forall k :: MapPasses(doc, a, k) { FullyTraced(doc, a); }
    } else {
      assert IsProblem(doc, a, documented, HeaderMismatch);
    }
  }

  lemma NoFrameProblemMeans(doc: Document, a: Authority, documented: set<string>)
    ensures (forall p :: !OfFrame(doc, a, documented, p)) <==>
      && a.problems == 0 && documented == a.requirements
      && KeysExact(doc.definitions, CATALOG_KEYS) && KeysExact(doc.maps, MAP_KEYS)
  {
    assert OfFrame(doc, a, documented, InAuthority) <==> a.problems > 0;
    assert OfFrame(doc, a, documented, BaselineDiffers) <==> documented != a.requirements;
    assert OfFrame(doc, a, documented, NoDefinitions) <==> doc.definitions.None?;
    assert OfFrame(doc, a, documented, DefinitionKeys) <==>
           doc.definitions.Some? && doc.definitions.value.Keys != CATALOG_KEYS;
    assert OfFrame(doc, a, documented, MapKeys) <==> !KeysExact(doc.maps, MAP_KEYS);
  }

  /** Where all maps pass, each covers all accepted requirements. */
  lemma FullyTraced(doc: Document, a: Authority)
    requires forall k :: MapPasses(doc, a, k)
    ensures ExpectedMetrics(|a.requirements|, k => TracedOf(doc, a, k)) == FullMetrics(|a.requirements|)
  {
    forall k ensures TracedOf(doc, a, k) == |a.requirements| {
      assert MapPasses(doc, a, k);
      PartitionedIff(Parts(MapOf(doc, k).entries), a.requirements);
      assert a.requirements * ScanOf(doc, k).expanded == a.requirements;
    }
    SameMetrics(|a.requirements|, k => TracedOf(doc, a, k), k => |a.requirements|);
  }

  /** Covered requirements are counted by their entries. */
  lemma TracedMeans(doc: Document, a: Authority, k: Kind)
    requires MapOf(doc, k).Entries?
    ensures TracedOf(doc, a, k) ==
            |(set r | r in a.requirements && exists e :: e in MapOf(doc, k).entries && Covers(e.key, r))|
  {
    var entries := MapOf(doc, k).entries;
    ScanSets(Parts(entries));
    PartsAre(entries);
    forall r ensures r in ScanOf(doc, k).expanded <==> exists e :: e in entries && Covers(e.key, r) {
      if Covered(Parts(entries), r) {
        var p :| p in Parts(entries) && Holds(p, r);
        var e :| e in entries && Parse(e) == p;
        ParseMeans(e);
      }
      if e :| e in entries && Covers(e.key, r) {
        ParseMeans(e);
        assert Parse(e) in Parts(entries);
      }
    }
    assert (set r | r in a.requirements && exists e :: e in entries && Covers(e.key, r)) ==
           a.requirements * ScanOf(doc, k).expanded;
  }

  /** Under which names the maps and the catalogs stand in the document. */
  lemma KindNames()
    ensures MapName(Architecture) == CatalogName(Architecture) == "architecture"
    ensures MapName(Ownership) == "ownership" && CatalogName(Ownership) == "milestones"
    ensures MapName(Tasks) == CatalogName(Tasks) == "tasks"
    ensures MapName(Evidence) == CatalogName(Evidence) == "evidence"
    ensures MapName(Gates) == CatalogName(Gates) == "gates"
  {
  }

  lemma MetricNames()
    ensures MetricName(Architecture) == "architecture_traced" && MetricName(Ownership) == "ownership_traced"
    ensures MetricName(Tasks) == "tasks_traced" && MetricName(Evidence) == "evidence_traced"
    ensures MetricName(Gates) == "gates_traced"
  {
  }

  /** The metrics by name. */
  lemma MetricsByName(total: nat, traced: Kind -> nat)
    ensures forall k :: MetricName(k) in ExpectedMetrics(total, traced)
    ensures forall k :: ExpectedMetrics(total, traced)[MetricName(k)] == traced(k)
    ensures "requirements_total" in ExpectedMetrics(total, traced)
    ensures ExpectedMetrics(total, traced)["requirements_total"] == total
    ensures |ExpectedMetrics(total, traced)| == 6
  {
    MetricNames();
    assert "tasks_traced"[0] == 't' && "gates_traced"[0] == 'g';
    assert ExpectedMetrics(total, traced).Keys ==
           {TOTAL, MetricName(Architecture), MetricName(Ownership), MetricName(Tasks), MetricName(Evidence),
            MetricName(Gates)};
    forall k: Kind ensures MetricName(k) in ExpectedMetrics(total, traced)
      ensures ExpectedMetrics(total, traced)[MetricName(k)] == traced(k)
    {
      match k { case Architecture => case Ownership => case Tasks => case Evidence => case Gates => }
    }
  }

  lemma SameMetrics(total: nat, f: Kind -> nat, g: Kind -> nat)
    requires forall k :: f(k) == g(k)
    ensures ExpectedMetrics(total, f) == ExpectedMetrics(total, g)
  {
  }

  lemma AllKinds()
    ensures forall k: Kind :: k in KINDS
  {
    assert KINDS[0] == Architecture && KINDS[1] == Ownership && KINDS[2] == Tasks && KINDS[3] == Evidence &&
           KINDS[4] == Gates;
    forall k: Kind ensures k in KINDS {
      match k { case Architecture => case Ownership => case Tasks => case Evidence => case Gates => }
    }
  }

  // ----- what passing means, entry by entry

  function Covering(r: string): Entry -> bool {
    (e: Entry) => Covers(e.key, r)
  }

  /** Exactly one entry covers each accepted requirement, no entry covers anything else. */
  ghost predicate EntriesPartition(entries: seq<Entry>, accepted: set<string>) {
    && (forall e :: e in entries ==> !Descending(e.key) && UsableNames(e.owners).Some?)
    && (forall r :: Count(entries, Covering(r)) == if r in accepted then 1 else 0)
  }

  /** The owners of an entry as a set, normalised. */
  function NormalOwners(e: Entry, normal: string -> string): set<string> {
    Image(OwnersOf(Parse(e)), normal)
  }

  ghost predicate EntriesMatch(entries: seq<Entry>, normal: string -> string, expected: string -> set<string>) {
    forall e, r :: e in entries && Covers(e.key, r) ==> NormalOwners(e, normal) == expected(r)
  }

  /** No two different spellings of one reference. */
  ghost predicate OneSpelling(entries: seq<Entry>, normal: string -> string) {
    forall d, e, x, y ::
      (d in entries && e in entries && x in OwnersOf(Parse(d)) && y in OwnersOf(Parse(e)) && normal(x) == normal(y)) ==>
        x == y
  }

  lemma {:induction false} CountOfParts(entries: seq<Entry>, r: string)
    ensures Count(Parts(entries), Holding(r)) == Count(entries, Covering(r))
  {
    if entries != [] {
      var front, last := entries[..|entries| - 1], entries[|entries| - 1];
      CountOfParts(front, r);
      ParseMeans(last);
      assert Parts(entries)[..|entries| - 1] == Parts(front);
    }
  }

  lemma PartsAre(entries: seq<Entry>)
    ensures forall p :: p in Parts(entries) <==> exists e :: e in entries && Parse(e) == p
  {
    forall e | e in entries ensures Parse(e) in Parts(entries) {
      var k :| 0 <= k < |entries| && entries[k] == e;
      assert Parts(entries)[k] == Parse(e);
    }
    forall p | p in Parts(entries) ensures exists e :: e in entries && Parse(e) == p {
      var k :| 0 <= k < |entries| && Parts(entries)[k] == p;
      assert entries[k] in entries;
    }
  }

  lemma EntriesMean(entries: seq<Entry>, c: Target)
    ensures WellFormed(Parts(entries)) && Partitioned(Parts(entries), c.accepted) <==>
              EntriesPartition(entries, c.accepted)
    ensures OwnersExpected(Parts(entries), c) <==> EntriesMatch(entries, c.normal, c.expected)
    ensures SpelledOneWay(Parts(entries), c) <==> OneSpelling(entries, c.normal)
  {
    var parts := Parts(entries);
    PartsAre(entries);
    forall e
      ensures Parse(e).requirements.None? <==> Descending(e.key)
      ensures forall r :: Holds(Parse(e), r) <==> Covers(e.key, r)
    {
      ParseMeans(e);
    }
    forall r ensures Count(parts, Holding(r)) == Count(entries, Covering(r)) { CountOfParts(entries, r); }
    forall x ensures Mentioned(parts, x) <==> exists e :: e in entries && x in OwnersOf(Parse(e)) {
      if Mentioned(parts, x) { var p :| p in parts && x in OwnersOf(p); }
    }
    WellFormedMeans(entries);
    OwnersMean(entries, c);
  }

  lemma WellFormedMeans(entries: seq<Entry>)
    ensures WellFormed(Parts(entries)) <==>
            forall e :: e in entries ==> !Descending(e.key) && UsableNames(e.owners).Some?
  {
    PartsAre(entries);
    forall e ensures Parse(e).requirements.None? <==> Descending(e.key) { ParseMeans(e); }
    if WellFormed(Parts(entries)) {
      forall e | e in entries ensures !Descending(e.key) && UsableNames(e.owners).Some? {
        assert Parse(e) in Parts(entries);
      }
    }
  }

  lemma OwnersMean(entries: seq<Entry>, c: Target)
    ensures OwnersExpected(Parts(entries), c) <==> EntriesMatch(entries, c.normal, c.expected)
  {
    PartsAre(entries);
    if OwnersExpected(Parts(entries), c) {
      forall e, r | e in entries && Covers(e.key, r) ensures NormalOwners(e, c.normal) == c.expected(r) {
        assert Parse(e) in Parts(entries);
        ParseMeans(e);
      }
    }
    if EntriesMatch(entries, c.normal, c.expected) {
      forall p, r | p in Parts(entries) && Holds(p, r) ensures Image(OwnersOf(p), c.normal) == c.expected(r) {
        var e :| e in entries && Parse(e) == p;
        MatchAt(entries, c, e, r);
      }
    }
  }

  lemma MatchAt(entries: seq<Entry>, c: Target, e: Entry, r: string)
    requires EntriesMatch(entries, c.normal, c.expected) && e in entries && Holds(Parse(e), r)
    ensures Image(OwnersOf(Parse(e)), c.normal) == c.expected(r)
  {
    ParseMeans(e);
    assert NormalOwners(e, c.normal) == c.expected(r);
  }

  /** Catalogs and expectations in order: each catalog is its authority, and no expectation goes beyond it. */
  ghost predicate AuthorityInOrder(doc: Document, a: Authority) {
    && a.problems == 0
    && (forall k :: CatalogOk(TargetOf(doc, a, k)))
    && (forall k, r :: r in a.requirements ==> ExpectedFor(a, k, r) <= a.catalog(k))
  }

  /** A map of the document says what it should, requirement by requirement. */
  ghost predicate MapIsRight(doc: Document, a: Authority, k: Kind) {
    var raw := MapOf(doc, k);
    && raw.Entries?
    && EntriesPartition(raw.entries, a.requirements)
    && EntriesMatch(raw.entries, Normal(k), r => ExpectedFor(a, k, r))
    && (k == Architecture ==> OneSpelling(raw.entries, Normal(k)))
  }

  lemma MapPassesIff(doc: Document, a: Authority, k: Kind)
    requires AuthorityInOrder(doc, a)
    ensures MapPasses(doc, a, k) <==> MapIsRight(doc, a, k)
  {
    var raw, c := MapOf(doc, k), TargetOf(doc, a, k);
    if raw.Entries? {
      var parts := Parts(raw.entries);
      PartsAre(raw.entries);
      forall p | p in parts && p.requirements.Some? ensures p.requirements.value != {} {
        var e :| e in raw.entries && Parse(e) == p;
        ParseMeans(e);
      }
      PassesIffPartition(parts, c);
      EntriesMean(raw.entries, c);
    }
  }

  /**
   Given a clean header, clean catalogs and a clean authority, the document passes exactly when each
   of the five maps partitions the accepted requirements into its keys and gives each requirement
   its expected owners, architecture names are spelled in one way, and all metrics are the requirement count.
   */
  lemma PassesIffMapsAreRight(doc: Document, a: Authority, documented: set<string>)
    requires AuthorityInOrder(doc, a)
    requires doc.headerOk && documented == a.requirements && KeysExact(doc.definitions, CATALOG_KEYS)
    requires KeysExact(doc.maps, MAP_KEYS)
    ensures Passes(doc, a, documented) <==>
      && (forall k :: MapIsRight(doc, a, k))
      && doc.metrics == Some(FullMetrics(|a.requirements|))
  {
    forall k ensures MapPasses(doc, a, k) <==> MapIsRight(doc, a, k) { MapPassesIff(doc, a, k); }
  }

  lemma OneName(x: string)
    requires x != ""
    ensures UsableNames(Items([Text(x)])) == Some([x]) && Elements([x]) == {x}
  {
    assert Names(Items([Text(x)])).value == [x];
  }

  lemma SpellingOfA()
    ensures NormalName("A") == "a" && NormalName("a") == "a"
  {
    NormalStays("a");
    SpacedStays("A");
    assert SpellAnd("A"[1..]) == "" && SpellAnd("A") == "A";
  }

  /** The same map with its entries in some other order. */
  ghost predicate Reordered(a: RawMap, b: RawMap) {
    a == b || (a.Entries? && b.Entries? && multiset(a.entries) == multiset(b.entries))
  }

  /** The verdict does not depend on the order of the entries in any of the maps. */
  lemma ReportIgnoresOrder(doc: Document, other: Document, a: Authority, documented: set<string>)
    requires other == doc.(maps := other.maps) && doc.maps.Some? && other.maps.Some?
    requires doc.maps.value.Keys == other.maps.value.Keys
    requires forall n :: n in doc.maps.value ==> Reordered(doc.maps.value[n], other.maps.value[n])
    ensures Passes(doc, a, documented) <==> Passes(other, a, documented)
  {
    forall k ensures MapPasses(doc, a, k) <==> MapPasses(other, a, k) { MapIgnoresOrder(doc, other, a, k); }
  }

  lemma MapIgnoresOrder(doc: Document, other: Document, a: Authority, k: Kind)
    requires CatalogOf(doc, k) == CatalogOf(other, k) && Reordered(MapOf(doc, k), MapOf(other, k))
    ensures MapPasses(doc, a, k) <==> MapPasses(other, a, k)
  {
    var x, y := MapOf(doc, k), MapOf(other, k);
    if x.Entries? && y.Entries? {
      MappedIgnoresOrder(x.entries, y.entries, e => Parse(e));
      VerdictIgnoresOrder(Parts(x.entries), Parts(y.entries), TargetOf(doc, a, k));
    }
  }
}

/**
 One traceability map: the loop over its entries in iteration order, the meaning of the map
 requirement by requirement, and the proof that the verdict is that meaning and so does not
 depend on the order.
 */
module TraceScan {
  import opened Options
  import opened Counting

  /** An entry once its key is expanded and its owners are checked; a part is missing where that failed. */
  datatype Part = Part(key: string, requirements: Option<set<string>>, names: Option<seq<string>>)

  predicate Holds(p: Part, requirement: string) {
    p.requirements.Some? && requirement in p.requirements.value
  }

  function Holding(requirement: string): Part -> bool {
    p => Holds(p, requirement)
  }

  function OwnersOf(p: Part): set<string> {
    if p.names.Some? then Elements(p.names.value) else {}
  }

  // ----- the loop

  datatype Error =
    | Overlap(requirements: set<string>)
    | DescendingRange(key: string)
    | NoValidOwner(key: string)
    | Orphan(requirements: set<string>)
    | Unknown(requirements: set<string>)
    | MissingCatalog
    | DefinitionCollision
    | ReferenceCollision
    | Invented(definitions: set<string>)
    | MissingDefinitions(definitions: set<string>)
    | UnknownReferences(references: set<string>)
    | Mismatch(requirement: string)

  datatype Tally = Tally(
    expanded: set<string>, referenced: set<string>, owners: map<string, seq<string>>, errors: seq<Error>)

  const EMPTY := Tally({}, {}, map[], [])

  function Expanded(p: Part): set<string> {
    match p.requirements case Some(s) => s case None => {}
  }

  function KeyErrors(p: Part, taken: set<string>): seq<Error> {
    match p.requirements
    case None => [DescendingRange(p.key)]
    case Some(s) => if s * taken != {} then [Overlap(s * taken)] else []
  }

  /** The first entry that names a requirement decides its owners. */
  function WithDefault(owners: map<string, seq<string>>, requirements: set<string>,
                       names: seq<string>): map<string, seq<string>>
  {
    (map r | r in requirements :: names) + owners
  }

  function Add(t: Tally, p: Part): Tally {
    var errors := t.errors + KeyErrors(p, t.owners.Keys);
    match p.names
    case Some(names) =>
      Tally(t.expanded + Expanded(p), t.referenced + OwnersOf(p), WithDefault(t.owners, Expanded(p), names), errors)
    case None => Tally(t.expanded + Expanded(p), t.referenced, t.owners, errors + [NoValidOwner(p.key)])
  }

  function Scan(parts: seq<Part>): Tally {
    if parts == [] then EMPTY else Add(Scan(parts[..|parts| - 1]), parts[|parts| - 1])
  }

  method SetDefaults(owners: map<string, seq<string>>, requirements: set<string>, names: seq<string>)
    returns (r: map<string, seq<string>>)
    ensures r == WithDefault(owners, requirements, names)
  {
    r := owners;
    var todo := requirements;
    while todo != {}
      invariant todo <= requirements
      invariant r == WithDefault(owners, requirements - todo, names)
      decreases todo
    {
      var requirement :| requirement in todo;
      if requirement !in r {
        r := r[requirement := names];
      }
      todo := todo - {requirement};
    }
    assert requirements - todo == requirements;
  }

  /** The body of the loop. */
  method AddPart(t: Tally, p: Part) returns (u: Tally)
    ensures u == Add(t, p)
  {
    var expanded, referenced, owners, errors := t.expanded, t.referenced, t.owners, t.errors;
    var requirements: set<string> := {};
    match p.requirements {
      case Some(s) =>
        requirements := s;
        if s * owners.Keys != {} {
          errors := errors + [Overlap(s * owners.Keys)];
        }
        expanded := expanded + s;
      case None =>
        errors := errors + [DescendingRange(p.key)];
    }
    match p.names {
      case Some(names) =>
        referenced := referenced + Elements(names);
        owners := SetDefaults(owners, requirements, names);
      case None =>
        errors := errors + [NoValidOwner(p.key)];
    }
    u := Tally(expanded, referenced, owners, errors);
  }

  // ----- what the entries mean, requirement by requirement

  ghost predicate WellFormed(parts: seq<Part>) {
    forall p :: p in parts ==> p.requirements.Some? && p.names.Some?
  }

  ghost predicate AtMostOnce(parts: seq<Part>) {
    forall r :: Count(parts, Holding(r)) <= 1
  }

  ghost predicate Covered(parts: seq<Part>, r: string) {
    exists p :: p in parts && Holds(p, r)
  }

  ghost predicate Mentioned(parts: seq<Part>, name: string) {
    exists p :: p in parts && name in OwnersOf(p)
  }

  ghost predicate OwnedBy(parts: seq<Part>, r: string, names: seq<string>) {
    exists p :: p in parts && Holds(p, r) && p.names == Some(names)
  }

  lemma CoveredIsCounted(parts: seq<Part>, r: string)
    ensures Count(parts, Holding(r)) > 0 <==> Covered(parts, r)
  {
    CountMeans(parts, Holding(r));
    assert forall p :: Holding(r)(p) == Holds(p, r);
  }

  /** What is in the collections that the loop builds. */
  lemma {:induction false} ScanSets(parts: seq<Part>)
    ensures forall r :: r in Scan(parts).expanded <==> Covered(parts, r)
    ensures forall n :: n in Scan(parts).referenced <==> Mentioned(parts, n)
    ensures forall r :: r in Scan(parts).owners ==> OwnedBy(parts, r, Scan(parts).owners[r])
  {
    if parts != [] {
      var front, last := parts[..|parts| - 1], parts[|parts| - 1];
      assert parts == front + [last];
      ScanSets(front);
      AddSets(front, last, Scan(front));
    }
  }

  lemma AddSets(front: seq<Part>, last: Part, t: Tally)
    requires forall r :: r in t.expanded <==> Covered(front, r)
    requires forall n :: n in t.referenced <==> Mentioned(front, n)
    requires forall r :: r in t.owners ==> OwnedBy(front, r, t.owners[r])
    ensures forall r :: r in Add(t, last).expanded <==> Covered(front + [last], r)
    ensures forall n :: n in Add(t, last).referenced <==> Mentioned(front + [last], n)
    ensures forall r :: r in Add(t, last).owners ==> OwnedBy(front + [last], r, Add(t, last).owners[r])
  {
    var parts := front + [last];
    assert forall p :: p in parts <==> p in front || p == last;
    forall r ensures Covered(parts, r) <==> Covered(front, r) || Holds(last, r) {
      if Covered(front, r) { var p :| p in front && Holds(p, r); assert p in parts; }
    }
    forall n ensures Mentioned(parts, n) <==> Mentioned(front, n) || n in OwnersOf(last) {
      if Mentioned(front, n) { var p :| p in front && n in OwnersOf(p); assert p in parts; }
    }
    forall r | r in Add(t, last).owners ensures OwnedBy(parts, r, Add(t, last).owners[r]) {
      if r in t.owners {
        var p :| p in front && Holds(p, r) && p.names == Some(t.owners[r]);
        assert p in parts;
      }
    }
  }

  /** The loop reports nothing exactly when every entry is well formed and no requirement is covered twice;
      the owners are then known for every covered requirement. */
  lemma {:induction false} ScanVerdict(parts: seq<Part>)
    ensures Scan(parts).errors == [] <==> WellFormed(parts) && AtMostOnce(parts)
    ensures WellFormed(parts) ==> Scan(parts).owners.Keys == Scan(parts).expanded
  {
    if parts != [] {
      var front, last := parts[..|parts| - 1], parts[|parts| - 1];
      ScanVerdict(front);
      AddVerdict(front, last);
      FormedMore(front, last);
      assert parts == front + [last];
      AddErrors(Scan(front), last);
    }
  }

  lemma AddErrors(t: Tally, p: Part)
    ensures Add(t, p).errors == [] <==>
              t.errors == [] && p.requirements.Some? && p.names.Some? && Expanded(p) * t.owners.Keys == {}
    ensures p.names.Some? && t.owners.Keys == t.expanded ==> Add(t, p).owners.Keys == Add(t, p).expanded
  {
  }

  lemma AddVerdict(front: seq<Part>, last: Part)
    ensures AtMostOnce(front + [last]) <==> AtMostOnce(front) && Expanded(last) * Scan(front).expanded == {}
  {
    ScanSets(front);
    OnceMore(front, last);
    DisjointMeans(Expanded(last), Scan(front).expanded);
    assert forall r :: Holds(last, r) <==> r in Expanded(last);
  }

  lemma FormedMore(front: seq<Part>, last: Part)
    ensures WellFormed(front + [last]) <==> WellFormed(front) && last.requirements.Some? && last.names.Some?
  {
    assert forall p :: p in front + [last] <==> p in front || p == last;
  }

  lemma OnceMore(front: seq<Part>, last: Part)
    ensures AtMostOnce(front + [last]) <==> AtMostOnce(front) && forall r :: Holds(last, r) ==> !Covered(front, r)
  {
    var parts := front + [last];
    forall r
      ensures Count(parts, Holding(r)) <= 1 <==>
                Count(front, Holding(r)) <= 1 && (Holds(last, r) ==> !Covered(front, r))
    {
      CountSplits(front, [last], Holding(r));
      CountOne(last, Holding(r));
      CoveredIsCounted(front, r);
    }
  }

  // ----- the verdict on one map

  /** What a map is checked against. `normal` is the spelling rule of its references, `catalog` the declared
      definitions. */
  datatype Target = Target(
    accepted: set<string>, expected: string -> set<string>, catalog: Option<seq<string>>, authority: set<string>,
    normal: string -> string)

  /** The catalog is a list of different definitions, also after normalisation, and together they are the authority. */
  ghost predicate CatalogOk(c: Target) {
    && c.catalog.Some? && Distinct(c.catalog.value)
    && InjectiveOn(Elements(c.catalog.value), c.normal)
    && Image(Elements(c.catalog.value), c.normal) == c.authority
  }

  /** Every accepted requirement is covered by exactly one entry and no other identifier by any. */
  ghost predicate Partitioned(parts: seq<Part>, accepted: set<string>) {
    forall r :: Count(parts, Holding(r)) == if r in accepted then 1 else 0
  }

  /** The owners of an entry, normalised, are what each requirement it covers expects. */
  ghost predicate OwnersExpected(parts: seq<Part>, c: Target) {
    forall p, r :: p in parts && Holds(p, r) ==> Image(OwnersOf(p), c.normal) == c.expected(r)
  }

  ghost predicate SpelledOneWay(parts: seq<Part>, c: Target) {
    forall x, y :: Mentioned(parts, x) && Mentioned(parts, y) && c.normal(x) == c.normal(y) ==> x == y
  }

  ghost predicate ReferencesKnown(parts: seq<Part>, c: Target) {
    forall x :: Mentioned(parts, x) ==> c.normal(x) in c.authority
  }

  /** The meaning of a faultless map. */
  ghost predicate MapOk(parts: seq<Part>, c: Target) {
    && WellFormed(parts) && Partitioned(parts, c.accepted) && OwnersExpected(parts, c)
    && CatalogOk(c) && SpelledOneWay(parts, c) && ReferencesKnown(parts, c)
  }

  /** The verdict is the same for every iteration order of the entries. */
  lemma VerdictIgnoresOrder(a: seq<Part>, b: seq<Part>, c: Target)
    requires multiset(a) == multiset(b)
    ensures MapOk(a, c) <==> MapOk(b, c)
  {
    forall p ensures p in a <==> p in b {
      assert p in a <==> p in multiset(a);
      assert p in b <==> p in multiset(b);
    }
    forall r ensures Count(a, Holding(r)) == Count(b, Holding(r)) { CountIgnoresOrder(a, b, Holding(r)); }
    forall x ensures Mentioned(a, x) <==> Mentioned(b, x) {
      if Mentioned(a, x) { var p :| p in a && x in OwnersOf(p); assert p in b; }
      if Mentioned(b, x) { var p :| p in b && x in OwnersOf(p); assert p in a; }
    }
  }

  /** The messages of the loop about single entries: a descending range, and an entry without a usable owner. */
  lemma {:induction false} LoopMessages(parts: seq<Part>, key: string)
    ensures DescendingRange(key) in Scan(parts).errors <==>
            exists p :: p in parts && p.key == key && p.requirements.None?
    ensures NoValidOwner(key) in Scan(parts).errors <==> exists p :: p in parts && p.key == key && p.names.None?
  {
    if parts != [] {
      var front, last := parts[..|parts| - 1], parts[|parts| - 1];
      LoopMessages(front, key);
      AddMessages(Scan(front), last, key);
      assert parts == front + [last];
    }
  }

  lemma AddMessages(t: Tally, p: Part, key: string)
    ensures DescendingRange(key) in Add(t, p).errors <==>
            DescendingRange(key) in t.errors || (p.key == key && p.requirements.None?)
    ensures NoValidOwner(key) in Add(t, p).errors <==> NoValidOwner(key) in t.errors || (p.key == key && p.names.None?)
  {
  }

  /** No other message comes from the loop. */
  lemma {:induction false} OnlyLoopMessages(parts: seq<Part>)
    ensures forall e :: e in Scan(parts).errors ==> e.DescendingRange? || e.NoValidOwner? || e.Overlap?
  {
    if parts != [] {
      OnlyLoopMessages(parts[..|parts| - 1]);
    }
  }

  /** The entry names the requirement and has usable owners. */
  predicate Decides(p: Part, r: string) {
    Holds(p, r) && p.names.Some?
  }

  predicate DecidesFirst(parts: seq<Part>, k: nat, r: string) {
    k < |parts| && Decides(parts[k], r) && forall j :: 0 <= j < k ==> !Decides(parts[j], r)
  }

  /** What is on record does depend on it: of all entries that could decide the owners of a requirement the first one
      does, and without any there is no record. */
  lemma {:induction false} FirstEntryWins(parts: seq<Part>, r: string)
    ensures r in Scan(parts).owners <==> exists k :: 0 <= k < |parts| && Decides(parts[k], r)
    ensures forall k :: 0 <= k < |parts| && DecidesFirst(parts, k, r) ==>
              r in Scan(parts).owners && Scan(parts).owners[r] == parts[k].names.value
  {
    if parts != [] {
      var n := |parts| - 1;
      FirstEntryWins(parts[..n], r);
      assert forall k :: 0 <= k < n ==> parts[..n][k] == parts[k];
    }
  }

  /** So two orders of the same entries can leave different owners on record. */
  lemma OrderShowsInRecord(a: Part, b: Part, r: string)
    requires Decides(a, r) && Decides(b, r) && a.names != b.names
    ensures r in Scan([a, b]).owners && r in Scan([b, a]).owners && Scan([a, b]).owners[r] != Scan([b, a]).owners[r]
  {
    FirstEntryWins([a, b], r);
    FirstEntryWins([b, a], r);
    assert [a, b][0] == a && [b, a][0] == b;
  }

  /** An overlap of keys is among the messages. */
  predicate ReportsOverlap(errors: seq<Error>) {
    exists k :: 0 <= k < |errors| && errors[k].Overlap?
  }

  /** The two entries share a requirement. */
  predicate Shares(p: Part, q: Part) {
    Expanded(p) * Expanded(q) != {}
  }

  /** A later entry shares a requirement with an earlier one that has usable owners. */
  predicate SharesWithUsable(parts: seq<Part>) {
    exists j, k :: 0 <= j < k < |parts| && parts[j].names.Some? && Shares(parts[j], parts[k])
  }

  lemma OverlapWithEarlier(front: seq<Part>, last: Part)
    ensures ReportsOverlap(KeyErrors(last, Scan(front).owners.Keys)) <==>
            exists j :: 0 <= j < |front| && front[j].names.Some? && Shares(front[j], last)
  {
    var taken := Scan(front).owners.Keys;
    forall r ensures r in taken <==> exists j :: 0 <= j < |front| && Decides(front[j], r) { FirstEntryWins(front, r); }
    if last.requirements.Some? && Expanded(last) * taken != {} {
      var r :| r in Expanded(last) * taken;
      var j :| 0 <= j < |front| && Decides(front[j], r);
      assert r in Expanded(front[j]) * Expanded(last);
      assert KeyErrors(last, taken)[0].Overlap?;
    }
    if j :| 0 <= j < |front| && front[j].names.Some? && Shares(front[j], last) {
      var r :| r in Expanded(front[j]) * Expanded(last);
      assert Decides(front[j], r) && r in Expanded(last) * taken;
      assert KeyErrors(last, taken)[0].Overlap?;
    }
  }

  /** Exactly when an overlap is reported: some entry shares a requirement with an earlier one that has usable
      owners. */
  lemma {:induction false} OverlapReportedIff(parts: seq<Part>)
    ensures ReportsOverlap(Scan(parts).errors) <==> SharesWithUsable(parts)
  {
    if parts != [] {
      var n := |parts| - 1;
      OverlapReportedIff(parts[..n]);
      OverlapWithEarlier(parts[..n], parts[n]);
      assert forall k :: 0 <= k < n ==> parts[..n][k] == parts[k];
      AddReports(Scan(parts[..n]), parts[n]);
      SharesMore(parts);
    }
  }

  lemma AddReports(t: Tally, p: Part)
    ensures ReportsOverlap(Add(t, p).errors) <==>
              ReportsOverlap(t.errors) || ReportsOverlap(KeyErrors(p, t.owners.Keys))
  {
    var more := KeyErrors(p, t.owners.Keys);
    ReportsOfBoth(t.errors, more);
    ReportsOfBoth(t.errors + more, [NoValidOwner(p.key)]);
  }

  lemma ReportsOfBoth(a: seq<Error>, b: seq<Error>)
    ensures ReportsOverlap(a + b) <==> ReportsOverlap(a) || ReportsOverlap(b)
  {
    if k :| 0 <= k < |a| && a[k].Overlap? { assert (a + b)[k].Overlap?; }
    if k :| 0 <= k < |b| && b[k].Overlap? { assert (a + b)[|a| + k].Overlap?; }
  }

  lemma SharesMore(parts: seq<Part>)
    requires parts != []
    ensures
      var n := |parts| - 1;
      SharesWithUsable(parts) <==>
      SharesWithUsable(parts[..n]) || exists j :: 0 <= j < n && parts[j].names.Some? && Shares(parts[j], parts[n])
  {
    var n := |parts| - 1;
    assert forall k :: 0 <= k < n ==> parts[..n][k] == parts[k];
  }

  /** For two entries, the orders differ in whether they report an overlap exactly when the entries share a requirement
      and just one of them has usable owners. */
  lemma CollisionsDependOnOrder(a: Part, b: Part)
    ensures ReportsOverlap(Scan([a, b]).errors) <==> a.names.Some? && Shares(a, b)
    ensures ReportsOverlap(Scan([a, b]).errors) != ReportsOverlap(Scan([b, a]).errors) <==>
            Shares(a, b) && (a.names.Some? <==> b.names.None?)
  {
    OverlapReportedIff([a, b]);
    OverlapReportedIff([b, a]);
    PairShares(a, b);
    PairShares(b, a);
    assert Expanded(a) * Expanded(b) == Expanded(b) * Expanded(a);
  }

  lemma PairShares(a: Part, b: Part)
    ensures SharesWithUsable([a, b]) <==> a.names.Some? && Shares(a, b)
  {
    assert [a, b][0] == a && [a, b][1] == b;
  }

  // ----- the checks after the loop

  /** Owners on record for a requirement, normalised; none where there is no record. */
  function RecordedOwners(t: Tally, r: string, normal: string -> string): set<string> {
    if r in t.owners then Image(Elements(t.owners[r]), normal) else {}
  }

  /** The catalog is a list of different strings. */
  ghost predicate UsableCatalog(c: Target) {
    c.catalog.Some? && Distinct(c.catalog.value)
  }

  function Definitions(c: Target): set<string> {
    if c.catalog.Some? then Image(Elements(c.catalog.value), c.normal) else {}
  }

  function References(t: Tally, c: Target): set<string> {
    Image(t.referenced, c.normal)
  }

  /** What the checks after the loop have to report, message by message. */
  ghost predicate IsFinding(t: Tally, c: Target, architecture: bool, e: Error) {
    match e
    case Orphan(rs) => rs != {} && rs == c.accepted - t.expanded
    case Unknown(rs) => rs != {} && rs == t.expanded - c.accepted
    case MissingCatalog => !UsableCatalog(c)
    case DefinitionCollision =>
      architecture && UsableCatalog(c) && !InjectiveOn(Elements(c.catalog.value), c.normal)
    case ReferenceCollision => architecture && UsableCatalog(c) && !InjectiveOn(t.referenced, c.normal)
    case Invented(ds) => UsableCatalog(c) && ds != {} && ds == Definitions(c) - c.authority
    case MissingDefinitions(ds) => UsableCatalog(c) && ds != {} && ds == c.authority - Definitions(c)
    case UnknownReferences(xs) => UsableCatalog(c) && xs != {} && xs == References(t, c) - Definitions(c)
    case Mismatch(r) => r in c.accepted && RecordedOwners(t, r, c.normal) != c.expected(r)
    case _ => false
  }

  predicate OfCoverage(e: Error) {
    e.Orphan? || e.Unknown?
  }

  predicate OfCatalog(e: Error) {
    || e.MissingCatalog? || e.DefinitionCollision? || e.ReferenceCollision? || e.Invented?
    || e.MissingDefinitions? || e.UnknownReferences?
  }

  method CheckCoverage(t: Tally, c: Target, ghost architecture: bool) returns (errors: seq<Error>)
    ensures forall e :: e in errors <==> OfCoverage(e) && IsFinding(t, c, architecture, e)
  {
    errors := if c.accepted - t.expanded != {} then [Orphan(c.accepted - t.expanded)] else [];
    errors := errors + if t.expanded - c.accepted != {} then [Unknown(t.expanded - c.accepted)] else [];
  }

  method CheckCatalog(t: Tally, c: Target, architecture: bool) returns (errors: seq<Error>)
    ensures forall e :: e in errors <==> OfCatalog(e) && IsFinding(t, c, architecture, e)
  {
    if c.catalog.None? || |Elements(c.catalog.value)| != |c.catalog.value| {
      if c.catalog.Some? { DistinctIffAllCounted(c.catalog.value); }
      return [MissingCatalog];
    }
    DistinctIffAllCounted(c.catalog.value);
    var collisions := CheckSpelling(t, c, architecture);
    var comparison := CompareCatalog(t, c, architecture);
    errors := collisions + comparison;
  }

  /** Do different names of the catalog, or different references, have the same normal form? */
  method CheckSpelling(t: Tally, c: Target, architecture: bool) returns (errors: seq<Error>)
    requires UsableCatalog(c)
    ensures forall e ::
              e in errors <==> (e.DefinitionCollision? || e.ReferenceCollision?) && IsFinding(t, c, architecture, e)
  {
    DistinctIffAllCounted(c.catalog.value);
    ImageSize(Elements(c.catalog.value), c.normal);
    ImageSize(t.referenced, c.normal);
    errors := [];
    if architecture && |Definitions(c)| != |c.catalog.value| {
      errors := errors + [DefinitionCollision];
    }
    if architecture && |References(t, c)| != |t.referenced| {
      errors := errors + [ReferenceCollision];
    }
  }

  /** Definitions against the authority, references against the definitions. */
  method CompareCatalog(t: Tally, c: Target, ghost architecture: bool) returns (errors: seq<Error>)
    requires UsableCatalog(c)
    ensures forall e ::
              e in errors <==>
              (e.Invented? || e.MissingDefinitions? || e.UnknownReferences?) && IsFinding(t, c, architecture, e)
  {
    var declared, references := Definitions(c), References(t, c);
    errors := if declared - c.authority != {} then [Invented(declared - c.authority)] else [];
    errors := errors + if c.authority - declared != {} then [MissingDefinitions(c.authority - declared)] else [];
    errors := errors + if references - declared != {} then [UnknownReferences(references - declared)] else [];
  }

  method CheckOwners(t: Tally, c: Target, ghost architecture: bool) returns (errors: seq<Error>)
    ensures forall e :: e in errors <==> e.Mismatch? && IsFinding(t, c, architecture, e)
  {
    errors := [];
    var todo := c.accepted;
    while todo != {}
      invariant todo <= c.accepted
      invariant forall e ::
                  e in errors <==> e.Mismatch? && e.requirement !in todo && IsFinding(t, c, architecture, e)
      decreases todo
    {
      var r :| r in todo;
      if RecordedOwners(t, r, c.normal) != c.expected(r) {
        errors := errors + [Mismatch(r)];
      }
      todo := todo - {r};
    }
  }

  /** No check after the loop reports anything. */
  ghost predicate ChecksPass(t: Tally, c: Target) {
    && t.expanded == c.accepted
    && CatalogOk(c) && InjectiveOn(t.referenced, c.normal)
    && (forall x :: x in t.referenced ==> c.normal(x) in c.authority)
    && (forall r :: r in c.accepted ==> RecordedOwners(t, r, c.normal) == c.expected(r))
  }

  /** There is nothing to report exactly when coverage, catalog, references and owners are all as they should be. */
  lemma NoFindingMeans(t: Tally, c: Target, architecture: bool)
    requires !architecture ==> forall x :: c.normal(x) == x
    ensures (forall e :: !IsFinding(t, c, architecture, e)) <==> ChecksPass(t, c)
  {
    CoverageMeans(t, c, architecture);
    CatalogMeans(t, c, architecture);
    assert forall r :: IsFinding(t, c, architecture, Mismatch(r)) <==>
                       r in c.accepted && RecordedOwners(t, r, c.normal) != c.expected(r);
  }

  lemma CoverageMeans(t: Tally, c: Target, architecture: bool)
    ensures (forall e :: OfCoverage(e) ==> !IsFinding(t, c, architecture, e)) <==> t.expanded == c.accepted
  {
    var missing, extra := c.accepted - t.expanded, t.expanded - c.accepted;
    NothingLeft(c.accepted, t.expanded);
    NothingLeft(t.expanded, c.accepted);
    assert missing != {} ==> IsFinding(t, c, architecture, Orphan(missing));
    assert extra != {} ==> IsFinding(t, c, architecture, Unknown(extra));
  }

  lemma CatalogMeans(t: Tally, c: Target, architecture: bool)
    requires !architecture ==> forall x :: c.normal(x) == x
    ensures (forall e :: OfCatalog(e) ==> !IsFinding(t, c, architecture, e)) <==>
      && CatalogOk(c) && InjectiveOn(t.referenced, c.normal)
      && forall x :: x in t.referenced ==> c.normal(x) in c.authority
  {
    var found, wanted, references := Definitions(c), c.authority, References(t, c);
    NothingLeft(found, wanted);
    NothingLeft(wanted, found);
    NothingLeft(references, found);
    ImageWithin(t.referenced, c.normal, found);
    assert IsFinding(t, c, architecture, MissingCatalog) <==> !UsableCatalog(c);
    if UsableCatalog(c) {
      assert found - wanted != {} ==> IsFinding(t, c, architecture, Invented(found - wanted));
      assert wanted - found != {} ==> IsFinding(t, c, architecture, MissingDefinitions(wanted - found));
      assert references - found != {} ==> IsFinding(t, c, architecture, UnknownReferences(references - found));
      SpellingMeans(t, c, architecture);
    }
  }

  lemma SpellingMeans(t: Tally, c: Target, architecture: bool)
    requires UsableCatalog(c) && (!architecture ==> forall x :: c.normal(x) == x)
    ensures IsFinding(t, c, architecture, DefinitionCollision) <==> !InjectiveOn(Elements(c.catalog.value), c.normal)
    ensures IsFinding(t, c, architecture, ReferenceCollision) <==> !InjectiveOn(t.referenced, c.normal)
  {
  }

  lemma PartitionedIff(parts: seq<Part>, accepted: set<string>)
    ensures Partitioned(parts, accepted) <==> AtMostOnce(parts) && Scan(parts).expanded == accepted
  {
    ScanSets(parts);
    forall r ensures Count(parts, Holding(r)) > 0 <==> Covered(parts, r) { CoveredIsCounted(parts, r); }
    if AtMostOnce(parts) && Scan(parts).expanded == accepted {
      forall r ensures Count(parts, Holding(r)) == if r in accepted then 1 else 0 {}
    }
    if Partitioned(parts, accepted) {
      forall r ensures Count(parts, Holding(r)) <= 1 && (r in Scan(parts).expanded <==> r in accepted) {}
    }
  }

  lemma {:induction false} OneHolder(parts: seq<Part>, p: Part, q: Part, r: string)
    requires p in parts && q in parts && Holds(p, r) && Holds(q, r) && Count(parts, Holding(r)) <= 1
    ensures p == q
  {
    var front, last := parts[..|parts| - 1], parts[|parts| - 1];
    assert parts == front + [last];
    CountMeans(front, Holding(r));
    assert forall x :: Holding(r)(x) == Holds(x, r);
    if p in front && q in front { OneHolder(front, p, q, r); }
  }

  lemma OwnersIff(parts: seq<Part>, c: Target)
    requires WellFormed(parts) && AtMostOnce(parts) && Scan(parts).expanded == c.accepted
    ensures (forall r :: r in c.accepted ==> RecordedOwners(Scan(parts), r, c.normal) == c.expected(r)) <==>
              OwnersExpected(parts, c)
  {
    ScanSets(parts);
    ScanVerdict(parts);
    forall p, r | p in parts && Holds(p, r)
      ensures r in c.accepted && RecordedOwners(Scan(parts), r, c.normal) == Image(OwnersOf(p), c.normal)
    {
      assert Covered(parts, r);
      var names := Scan(parts).owners[r];
      var q :| q in parts && Holds(q, r) && q.names == Some(names);
      OneHolder(parts, p, q, r);
    }
    forall r | r in c.accepted ensures exists p :: p in parts && Holds(p, r) { assert Covered(parts, r); }
  }

  /** The order-sensitive loop and the checks after it report nothing exactly on a faultless map. */
  lemma LoopRefinesMeaning(parts: seq<Part>, c: Target)
    ensures Scan(parts).errors == [] && ChecksPass(Scan(parts), c) <==> MapOk(parts, c)
  {
    ScanVerdict(parts);
    ScanSets(parts);
    PartitionedIff(parts, c.accepted);
    if WellFormed(parts) && AtMostOnce(parts) && Scan(parts).expanded == c.accepted { OwnersIff(parts, c); }
    assert InjectiveOn(Scan(parts).referenced, c.normal) <==> SpelledOneWay(parts, c);
    assert (forall x :: x in Scan(parts).referenced ==> c.normal(x) in c.authority) <==> ReferencesKnown(parts, c);
  }

  /** Neither the loop nor the checks after it report anything exactly on a faultless map. */
  lemma NothingReported(parts: seq<Part>, c: Target, architecture: bool)
    requires !architecture ==> forall x :: c.normal(x) == x
    ensures Scan(parts).errors == [] && (forall e :: !IsFinding(Scan(parts), c, architecture, e)) <==> MapOk(parts, c)
  {
    NoFindingMeans(Scan(parts), c, architecture);
    LoopRefinesMeaning(parts, c);
  }

  /** Where catalog and authority are in order, a map passes exactly when it partitions the accepted requirements,
      gives each its expected owners, and spells every owner in one way. */
  lemma PassesIffPartition(parts: seq<Part>, c: Target)
    requires CatalogOk(c) && (forall r :: r in c.accepted ==> c.expected(r) <= c.authority)
    requires forall p :: p in parts && p.requirements.Some? ==> p.requirements.value != {}
    ensures MapOk(parts, c) <==>
      WellFormed(parts) && Partitioned(parts, c.accepted) && OwnersExpected(parts, c) && SpelledOneWay(parts, c)
  {
    if WellFormed(parts) && Partitioned(parts, c.accepted) && OwnersExpected(parts, c) {
      forall x | Mentioned(parts, x) ensures c.normal(x) in c.authority {
        var p :| p in parts && x in OwnersOf(p);
        var r :| r in p.requirements.value;
        assert Holds(p, r) && Covered(parts, r);
        CoveredIsCounted(parts, r);
        assert c.normal(x) in Image(OwnersOf(p), c.normal);
      }
    }
  }
}

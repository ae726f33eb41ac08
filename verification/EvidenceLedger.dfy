/**
 The final release evidence: collecting the YAML entries by category, and matching them with the
 events appended to the evidence ledger.
 */
module EvidenceLedger {
  import opened Options
  import opened ByteText
  import opened Counting

  const CATEGORIES: seq<string> :=
    ["EVD-M11-BUILD", "EVD-M11-VALIDATION", "EVD-M11-UNDERSTANDING", "EVD-M11-CONTINUITY", "EVD-M11-PORTABILITY",
     "EVD-M11-PACKAGING", "EVD-M11-SELFHOST", "EVD-M11-SECURITY", "EVD-V1-RELEASE"]

  datatype Entry = Entry(id: string, content: string)

  /** Loading one evidence path either gives a trusted entry or raises. */
  datatype Loaded = Bad | Good(entry: Entry)

  datatype Blocker = InvalidEvidence | DuplicateId(id: string) | MissingIds | UnknownIds

  /** One decoded ledger line: anything that is not an EVIDENCE object with exactly two keys, or its payload. */
  datatype RawEvent<P> = OutOfScope | Evidence(payload: P)

  /** The entries the loop keeps from a list of loaded paths: the first one of each identity. */
  function Kept(loaded: seq<Loaded>): map<string, Entry> {
    if loaded == [] then map[] else
      var before, last := Kept(loaded[..|loaded| - 1]), loaded[|loaded| - 1];
      if last.Good? && last.entry.id !in before then before[last.entry.id := last.entry] else before
  }

  lemma {:induction false} KeptById(loaded: seq<Loaded>)
    ensures forall id :: id in Kept(loaded) ==> Kept(loaded)[id].id == id && Good(Kept(loaded)[id]) in loaded
  {
    if loaded != [] {
      KeptById(loaded[..|loaded| - 1]);
    }
  }

  /** Every path gives an entry. */
  predicate AllGood(loaded: seq<Loaded>) {
    forall k :: 0 <= k < |loaded| ==> loaded[k].Good?
  }

  function IdsOf(loaded: seq<Loaded>): seq<string>
    requires AllGood(loaded)
  {
    seq(|loaded|, k requires 0 <= k < |loaded| => loaded[k].entry.id)
  }

  lemma {:induction false} KeptIds(loaded: seq<Loaded>)
    requires AllGood(loaded)
    ensures Kept(loaded).Keys == Elements(IdsOf(loaded))
  {
    if loaded != [] {
      var n := |loaded| - 1;
      KeptIds(loaded[..n]);
      assert IdsOf(loaded) == IdsOf(loaded[..n]) + [loaded[n].entry.id];
    }
  }

  predicate Has(x: Loaded, id: string) {
    x.Good? && x.entry.id == id
  }

  /** Two of the paths give entries of this identity. */
  ghost predicate Repeated(loaded: seq<Loaded>, id: string) {
    exists i, j :: 0 <= i < j < |loaded| && Has(loaded[i], id) && Has(loaded[j], id)
  }

  lemma {:induction false} KeptMeans(loaded: seq<Loaded>, id: string)
    ensures id in Kept(loaded) <==> exists k :: 0 <= k < |loaded| && Has(loaded[k], id)
  {
    if loaded != [] {
      var n := |loaded| - 1;
      KeptMeans(loaded[..n], id);
      if k :| 0 <= k < |loaded| && Has(loaded[k], id) { assert k < n ==> Has(loaded[..n][k], id); }
      if k :| 0 <= k < n && Has(loaded[..n][k], id) { assert Has(loaded[k], id); }
    }
  }

  lemma RepeatedMore(before: seq<Loaded>, last: Loaded)
    ensures forall id :: Repeated(before + [last], id) <==>
              Repeated(before, id) || (Has(last, id) && id in Kept(before))
  {
    var all, n := before + [last], |before|;
    forall id ensures Repeated(all, id) <==> Repeated(before, id) || (Has(last, id) && id in Kept(before)) {
      KeptMeans(before, id);
      if i, j :| 0 <= i < j < |all| && Has(all[i], id) && Has(all[j], id) {
        assert Has(before[i], id) && (j < n ==> Has(before[j], id));
      }
      if i, j :| 0 <= i < j < n && Has(before[i], id) && Has(before[j], id) {
        assert Has(all[i], id) && Has(all[j], id);
      }
      if k :| 0 <= k < n && Has(before[k], id) { assert Has(all[k], id) && (Has(last, id) ==> Has(all[n], id)); }
    }
  }

  /** What the collecting loop and the inventory checks after it object to. */
  ghost predicate IsObjection(loaded: seq<Loaded>, b: Blocker) {
    match b
    case InvalidEvidence => !AllGood(loaded)
    case DuplicateId(id) => Repeated(loaded, id)
    case MissingIds => !(Elements(CATEGORIES) <= Kept(loaded).Keys)
    case UnknownIds => !(Kept(loaded).Keys <= Elements(CATEGORIES))
  }

  predicate OfLoop(b: Blocker) {
    b.InvalidEvidence? || b.DuplicateId?
  }

  /** The blockers are exactly the objections of the loop. */
  ghost predicate LoopObjections(loaded: seq<Loaded>, blockers: seq<Blocker>) {
    forall b :: b in blockers <==> OfLoop(b) && IsObjection(loaded, b)
  }

  lemma ObjectionsMore(before: seq<Loaded>, last: Loaded, blockers: seq<Blocker>)
    requires LoopObjections(before, blockers)
    ensures last.Bad? ==> LoopObjections(before + [last], blockers + [InvalidEvidence])
    ensures last.Good? && last.entry.id in Kept(before) ==>
              LoopObjections(before + [last], blockers + [DuplicateId(last.entry.id)])
    ensures last.Good? && last.entry.id !in Kept(before) ==> LoopObjections(before + [last], blockers)
  {
    RepeatedMore(before, last);
    AllGoodMore(before, last);
  }

  lemma AllGoodMore(before: seq<Loaded>, last: Loaded)
    ensures AllGood(before + [last]) <==> AllGood(before) && last.Good?
  {
    var all := before + [last];
    assert all[|before|] == last && forall k :: 0 <= k < |before| ==> all[k] == before[k];
  }

  /** The collecting loop over the evidence paths and the two inventory checks after it. */
  method CollectEvidence(loaded: seq<Loaded>) returns (entries: map<string, Entry>, blockers: seq<Blocker>)
    ensures entries == Kept(loaded)
    ensures forall b :: b in blockers <==> IsObjection(loaded, b)
  {
    entries, blockers := map[], [];
    for k := 0 to |loaded|
      invariant entries == Kept(loaded[..k])
      invariant LoopObjections(loaded[..k], blockers)
    {
      assert loaded[..k + 1] == loaded[..k] + [loaded[k]] && loaded[..k + 1][..k] == loaded[..k];
      ObjectionsMore(loaded[..k], loaded[k], blockers);
      match loaded[k]
      case Bad =>
        blockers := blockers + [InvalidEvidence];
      case Good(entry) =>
        if entry.id in entries {
          blockers := blockers + [DuplicateId(entry.id)];
        } else {
          entries := entries[entry.id := entry];
        }
    }
    assert loaded[..|loaded|] == loaded;
    if !(Elements(CATEGORIES) <= entries.Keys) {
      blockers := blockers + [MissingIds];
    }
    if !(entries.Keys <= Elements(CATEGORIES)) {
      blockers := blockers + [UnknownIds];
    }
  }

  /** There is no objection exactly when every path gives an entry and their identities are the nine categories, each
      once. */
  lemma NoObjectionMeans(loaded: seq<Loaded>, blockers: seq<Blocker>)
    requires forall b :: b in blockers <==> IsObjection(loaded, b)
    ensures blockers == [] <==>
            AllGood(loaded) && Distinct(IdsOf(loaded)) && Elements(IdsOf(loaded)) == Elements(CATEGORIES)
  {
    assert blockers != [] ==> IsObjection(loaded, blockers[0]);
    assert IsObjection(loaded, InvalidEvidence) <==> !AllGood(loaded);
    assert IsObjection(loaded, MissingIds) <==> !(Elements(CATEGORIES) <= Kept(loaded).Keys);
    assert IsObjection(loaded, UnknownIds) <==> !(Kept(loaded).Keys <= Elements(CATEGORIES));
    if AllGood(loaded) {
      KeptIds(loaded);
      DistinctMeans(loaded);
      assert forall id :: IsObjection(loaded, DuplicateId(id)) <==> Repeated(loaded, id);
    }
  }

  lemma DistinctMeans(loaded: seq<Loaded>)
    requires AllGood(loaded)
    ensures Distinct(IdsOf(loaded)) <==> forall id :: !Repeated(loaded, id)
  {
    var ids := IdsOf(loaded);
    assert forall k, id :: 0 <= k < |loaded| ==> (Has(loaded[k], id) <==> ids[k] == id);
    if !Distinct(ids) {
      var i, j :| 0 <= i < j < |ids| && ids[i] == ids[j];
      assert Has(loaded[i], ids[i]) && Has(loaded[j], ids[i]);
      assert Repeated(loaded, ids[i]);
    }
    if id :| Repeated(loaded, id) {
      var i, j :| 0 <= i < j < |loaded| && Has(loaded[i], id) && Has(loaded[j], id);
      assert ids[i] == ids[j];
    }
  }

  /** The ledger of the source commit is kept byte for byte and ends at an event boundary. */
  predicate AppendOnly(source: Option<Bytes>, current: Bytes) {
    source.None? || ((source.value == [] || source.value[|source.value| - 1] == LF) && source.value <= current)
  }

  function Appended(source: Option<Bytes>, current: Bytes): Bytes
    requires AppendOnly(source, current)
  {
    if source.None? then current else current[|source.value|..]
  }

  /** What was appended is what follows the source ledger. */
  lemma AppendedIs(source: Bytes, added: Bytes)
    ensures AppendOnly(Some(source), source + added) <==> source == [] || source[|source| - 1] == LF
    ensures AppendOnly(Some(source), source + added) ==> Appended(Some(source), source + added) == added
  {
  }

  /** What the ledger check demands. */
  ghost predicate Matches<P(!new)>(entries: map<string, Entry>, raw: seq<RawEvent<P>>, ledger: seq<Entry>,
                                   payload: Entry -> P)
  {
    && entries != map[]
    && |raw| == |CATEGORIES|
    && (forall k :: 0 <= k < |raw| ==> raw[k].Evidence?)
    && Distinct(LedgerIds(ledger))
    && entries.Keys <= Elements(LedgerIds(ledger))
    && (forall id :: id in entries ==> entries[id] in ledger && Evidence(payload(entries[id])) in raw)
  }

  function LedgerIds(ledger: seq<Entry>): seq<string> {
    seq(|ledger|, k requires 0 <= k < |ledger| => ledger[k].id)
  }

  /** The ledger check: events of the right scope, and for each YAML entry a ledger entry and an event that equal it. */
  method CheckLedger<P(==,!new)>(entries: map<string, Entry>, source: Option<Bytes>, current: Bytes,
                                 decode: Bytes -> seq<RawEvent<P>>, ledger: seq<Entry>, payload: Entry -> P)
    returns (ok: bool)
    ensures ok <==> AppendOnly(source, current) && Matches(entries, decode(Appended(source, current)), ledger, payload)
  {
    if entries == map[] || !AppendOnly(source, current) {
      return false;
    }
    var raw := decode(Appended(source, current));
    var ids := LedgerIds(ledger);
    DistinctIffAllCounted(ids);
    if |raw| != |CATEGORIES| || exists k :: 0 <= k < |raw| && raw[k].OutOfScope? {
      return false;
    }
    if |Elements(ids)| != |ids| || !(entries.Keys <= Elements(ids)) {
      return false;
    }
    var todo := entries.Keys;
    while todo != {}
      invariant todo <= entries.Keys
      invariant forall id :: id in entries.Keys - todo ==>
                  entries[id] in ledger && Evidence(payload(entries[id])) in raw
    {
      var id :| id in todo;
      if entries[id] !in ledger || Evidence(payload(entries[id])) !in raw {
        return false;
      }
      todo := todo - {id};
    }
    return true;
  }

  // ----- the two checks together

  /** The payloads of the nine entries, in category order. */
  function Payloads<P>(entries: map<string, Entry>, payload: Entry -> P): (ps: seq<P>)
    requires entries.Keys == Elements(CATEGORIES)
  {
    seq(|CATEGORIES|,
      k requires 0 <= k < |CATEGORIES| => assert CATEGORIES[k] in entries.Keys; payload(entries[CATEGORIES[k]]))
  }

  function EventPayloads<P>(raw: seq<RawEvent<P>>): seq<P>
    requires forall k :: 0 <= k < |raw| ==> raw[k].Evidence?
  {
    seq(|raw|, k requires 0 <= k < |raw| => raw[k].payload)
  }

  lemma CategoriesDistinct()
    ensures Distinct(CATEGORIES)
  {
  }

  /**
   When neither check objects, the appended ledger events are a permutation of the nine YAML
   payloads: none is extra, repeated or missing.  Payloads differ where identities differ.
   */
  lemma LedgerIsPermutation<P(!new)>(loaded: seq<Loaded>, raw: seq<RawEvent<P>>, ledger: seq<Entry>,
                                     payload: Entry -> P)
    requires Kept(loaded).Keys == Elements(CATEGORIES)
    requires Matches(Kept(loaded), raw, ledger, payload)
    requires forall a, b :: payload(a) == payload(b) ==> a.id == b.id
    ensures multiset(EventPayloads(raw)) == multiset(Payloads(Kept(loaded), payload))
  {
    var entries := Kept(loaded);
    var ps, es := Payloads(entries, payload), EventPayloads(raw);
    KeptById(loaded);
    CategoriesDistinct();
    assert forall k :: 0 <= k < |CATEGORIES| ==> CATEGORIES[k] in entries.Keys;
    forall i, j | 0 <= i < j < |ps| ensures ps[i] != ps[j] {
      assert CATEGORIES[i] != CATEGORIES[j];
      assert entries[CATEGORIES[i]].id == CATEGORIES[i] && entries[CATEGORIES[j]].id == CATEGORIES[j];
    }
    forall x | x in ps ensures x in es {
      var k :| 0 <= k < |ps| && ps[k] == x;
      assert Evidence(payload(entries[CATEGORIES[k]])) in raw;
      var n :| 0 <= n < |raw| && raw[n] == Evidence(x);
      assert es[n] == x;
    }
    ContainedIsPermutation(ps, es);
  }

  /** And the other way round: any permutation of the nine payloads is accepted, with a ledger that has the entries and
      no identity twice. */
  lemma PermutationMatches<P(!new)>(loaded: seq<Loaded>, raw: seq<RawEvent<P>>, ledger: seq<Entry>, payload: Entry -> P)
    requires Kept(loaded).Keys == Elements(CATEGORIES)
    requires forall k :: 0 <= k < |raw| ==> raw[k].Evidence?
    requires multiset(EventPayloads(raw)) == multiset(Payloads(Kept(loaded), payload))
    requires Distinct(LedgerIds(ledger)) && forall id :: id in Kept(loaded) ==> Kept(loaded)[id] in ledger
    ensures Matches(Kept(loaded), raw, ledger, payload)
  {
    var entries := Kept(loaded);
    var ps, es := Payloads(entries, payload), EventPayloads(raw);
    assert |es| == |multiset(es)| == |multiset(ps)| == |ps|;
    KeptById(loaded);
    assert CATEGORIES[0] in Elements(CATEGORIES);
    forall id | id in entries ensures Evidence(payload(entries[id])) in raw && id in Elements(LedgerIds(ledger)) {
      var k :| 0 <= k < |CATEGORIES| && CATEGORIES[k] == id;
      PayloadIsEvent(raw, ps, k);
      EntryHasId(ledger, entries[id]);
    }
  }

  lemma PayloadIsEvent<P>(raw: seq<RawEvent<P>>, ps: seq<P>, k: nat)
    requires (forall n :: 0 <= n < |raw| ==> raw[n].Evidence?) && multiset(EventPayloads(raw)) == multiset(ps)
    requires k < |ps|
    ensures Evidence(ps[k]) in raw
  {
    assert ps[k] in multiset(ps);
    var n :| 0 <= n < |raw| && EventPayloads(raw)[n] == ps[k];
    assert raw[n] == Evidence(ps[k]);
  }

  lemma EntryHasId(ledger: seq<Entry>, e: Entry)
    requires e in ledger
    ensures e.id in Elements(LedgerIds(ledger))
  {
    var k :| 0 <= k < |ledger| && ledger[k] == e;
    assert LedgerIds(ledger)[k] == e.id;
  }

  /**
   The two checks one after the other.  When neither raises a blocker, the bytes of the source ledger
   are kept and the events appended to it are a permutation of the nine payloads.
   */
  method CheckFinalEvidence<P(==,!new)>(loaded: seq<Loaded>, source: Option<Bytes>, current: Bytes,
                                        decode: Bytes -> seq<RawEvent<P>>, ledger: seq<Entry>, payload: Entry -> P)
    returns (blockers: seq<Blocker>, ledgerOk: bool)
    requires forall a, b :: payload(a) == payload(b) ==> a.id == b.id
    ensures blockers == [] && ledgerOk ==>
              && AppendOnly(source, current)
              && Kept(loaded).Keys == Elements(CATEGORIES)
              && (forall e :: e in decode(Appended(source, current)) ==> e.Evidence?)
              && multiset(EventPayloads(decode(Appended(source, current)))) == multiset(Payloads(Kept(loaded), payload))
    ensures blockers == [] && ledgerOk <==>
              && AllGood(loaded) && Distinct(IdsOf(loaded)) && Elements(IdsOf(loaded)) == Elements(CATEGORIES)
              && AppendOnly(source, current)
              && Matches(Kept(loaded), decode(Appended(source, current)), ledger, payload)
  {
    var entries;
    entries, blockers := CollectEvidence(loaded);
    ledgerOk := CheckLedger(entries, source, current, decode, ledger, payload);
    NoObjectionMeans(loaded, blockers);
    if blockers == [] && ledgerOk {
      KeptIds(loaded);
      LedgerIsPermutation(loaded, decode(Appended(source, current)), ledger, payload);
    }
  }
}

/**
 The append-only check of the release audit log: a byte-level prefix test and event checks over
 the lines that were added.
 */
module AuditLog {
  import opened Options
  import opened ByteText
  import opened Counting

  /** A fully checked audit event; `at` is its instant on the time line. */
  datatype AuditEvent = AuditEvent(
    id: string, kind: string, at: int, actor: string, commit: Option<string>, payload: map<string, string>)

  /** What one line decodes to: not a JSON object with a usable identity, or an identity and, when
      the line has the full shape of an event with a time-zone aware timestamp, the event. */
  datatype Record = Malformed | Identified(id: string, event: Option<AuditEvent>)

  /** JSON decoding of a line, with duplicate keys refused. */
  type Decoder = Bytes -> Record

  // ----- lines

  predicate EndsLine(b: byte) {
    b == LF || b == CR
  }

  function LineLength(s: Bytes): (n: nat)
    ensures n <= |s| && (n < |s| ==> EndsLine(s[n])) && forall k :: 0 <= k < n ==> !EndsLine(s[k])
  {
    if s == [] || EndsLine(s[0]) then 0 else 1 + LineLength(s[1..])
  }

  /** Where the line after the first one begins. */
  function NextLine(s: Bytes): (n: nat)
    ensures n <= |s| && (s != [] ==> n > 0)
  {
    var n := LineLength(s);
    if n == |s| then n
    else if n + 1 < |s| && s[n] == CR && s[n + 1] == LF then n + 2
    else n + 1
  }

  /** `splitlines` on bytes: LF, CR and CRLF end a line, and no empty line follows the last end. */
  function Lines(s: Bytes): seq<Bytes>
    decreases |s|
  {
    if s == [] then [] else [s[..LineLength(s)]] + Lines(s[NextLine(s)..])
  }

  predicate EndsWithLf(s: Bytes) {
    s != [] && s[|s| - 1] == LF
  }

  lemma FirstLineOfBoth(a: Bytes, b: Bytes)
    requires EndsWithLf(a)
    ensures LineLength(a + b) == LineLength(a) < |a| && NextLine(a + b) == NextLine(a)
  {
    var n := LineLength(a);
    assert (a + b)[..n] == a[..n];
    assert forall k :: 0 <= k < n ==> (a + b)[k] == a[k];
    var m := LineLength(a + b);
    assert m >= n;
    assert (a + b)[n] == a[n];
  }

  /** Behind a line feed the lines of what follows are simply added. */
  lemma {:induction false} LinesOfBoth(a: Bytes, b: Bytes)
    requires a == [] || EndsWithLf(a)
    ensures Lines(a + b) == Lines(a) + Lines(b)
    decreases |a|
  {
    if a == [] {
      assert a + b == b;
    } else {
      FirstLineOfBoth(a, b);
      var n := NextLine(a);
      assert (a + b)[n..] == a[n..] + b && (a + b)[..LineLength(a)] == a[..LineLength(a)];
      LinesOfBoth(a[n..], b);
    }
  }

  predicate IsLine(s: Bytes) {
    forall k :: 0 <= k < |s| ==> !EndsLine(s[k])
  }

  lemma LineFound(line: Bytes, rest: Bytes)
    requires IsLine(line) && (rest == [] || EndsLine(rest[0]))
    ensures LineLength(line + rest) == |line|
  {
    var s := line + rest;
    assert forall k :: 0 <= k < |line| ==> s[k] == line[k];
    assert rest != [] ==> s[|line|] == rest[0];
  }

  /** A line ends at a line feed, at a carriage return, or at both together; what follows is split further. */
  lemma LineThenRest(line: Bytes, rest: Bytes)
    requires IsLine(line)
    ensures Lines(line + ([LF] + rest)) == [line] + Lines(rest)
    ensures Lines(line + ([CR, LF] + rest)) == [line] + Lines(rest)
    ensures rest == [] || rest[0] != LF ==> Lines(line + ([CR] + rest)) == [line] + Lines(rest)
  {
    OneEnding(line, [LF], rest);
    OneEnding(line, [CR, LF], rest);
    if rest == [] || rest[0] != LF { OneEnding(line, [CR], rest); }
  }

  lemma OneEnding(line: Bytes, ending: Bytes, rest: Bytes)
    requires IsLine(line)
    requires ending == [LF] || ending == [CR, LF] || (ending == [CR] && (rest == [] || rest[0] != LF))
    ensures Lines(line + (ending + rest)) == [line] + Lines(rest)
  {
    var s, n := line + (ending + rest), |line|;
    LineFound(line, ending + rest);
    assert s[n] == ending[0];
    assert n + 1 < |s| ==> s[n + 1] == (ending + rest)[1];
    assert NextLine(s) == n + |ending|;
    assert s[..n] == line && s[n + |ending|..] == rest;
  }

  /** A last line needs no ending. */
  lemma LastLine(line: Bytes)
    requires IsLine(line) && line != []
    ensures Lines(line) == [line]
  {
    LineFound(line, []);
    assert line + [] == line && line[..|line|] == line;
  }

  /** Lines written out, each followed by a line feed. */
  function WriteLines(lines: seq<Bytes>): Bytes {
    if lines == [] then [] else lines[0] + ([LF] + WriteLines(lines[1..]))
  }

  /** Written lines are read back as those lines. */
  lemma {:induction false} LinesReadBack(lines: seq<Bytes>)
    requires forall k :: 0 <= k < |lines| ==> IsLine(lines[k])
    ensures Lines(WriteLines(lines)) == lines
  {
    if lines != [] {
      LinesReadBack(lines[1..]);
      LineThenRest(lines[0], WriteLines(lines[1..]));
    }
  }

  function Decoded(decode: Decoder, lines: seq<Bytes>): seq<Record> {
    seq(|lines|, k requires 0 <= k < |lines| => decode(lines[k]))
  }

  function Records(decode: Decoder, log: Bytes): seq<Record> {
    Decoded(decode, Lines(log))
  }

  lemma RecordsOfBoth(decode: Decoder, a: Bytes, b: Bytes)
    requires a == [] || EndsWithLf(a)
    ensures Records(decode, a + b) == Records(decode, a) + Records(decode, b)
  {
    LinesOfBoth(a, b);
  }

  // ----- the check

  const EXPECTED_KINDS: seq<string> :=
    ["MILESTONE_STATE_TRANSITION", "RELEASE_STATE_TRANSITION", "RELEASE_CANDIDATE_INDEPENDENT_VALIDATION"]

  /** What the source status and the binding say about the transition. */
  datatype Transition = Transition(candidate: string, milestoneFrom: string, releaseFrom: string)

  predicate ExpectedProvenance(t: Transition, milestone: AuditEvent, release: AuditEvent) {
    && milestone.actor == "artifex-core" && milestone.commit == Some(t.candidate)
    && milestone.payload ==
       map["milestone" := "M11", "from" := t.milestoneFrom, "to" := "VALIDATING", "candidate_commit" := t.candidate]
    && release.actor == "artifex-core" && release.commit == Some(t.candidate)
    && release.payload == map["from" := t.releaseFrom, "to" := "CANDIDATE", "candidate_commit" := t.candidate]
  }

  function Ids(records: seq<Record>): seq<string>
    requires forall k :: 0 <= k < |records| ==> records[k].Identified?
  {
    seq(|records|, k requires 0 <= k < |records| => records[k].id)
  }

  function Events(records: seq<Record>): seq<AuditEvent>
    requires forall k :: 0 <= k < |records| ==> records[k].Identified? && records[k].event.Some?
  {
    seq(|records|, k requires 0 <= k < |records| => records[k].event.value)
  }

  /** The bytes are kept and lines stay whole. */
  predicate KeepsBytes(source: Bytes, governance: Bytes) {
    source <= governance && (source != governance ==> EndsWithLf(source) && EndsWithLf(governance[|source|..]))
  }

  ghost predicate AllIdentified(records: seq<Record>) {
    forall k :: 0 <= k < |records| ==> records[k].Identified?
  }

  ghost predicate AllEvents(records: seq<Record>) {
    forall k :: 0 <= k < |records| ==> records[k].Identified? && records[k].event.Some?
  }

  /** The records have identities, all different. */
  ghost predicate WellIdentified(records: seq<Record>) {
    AllIdentified(records) && Distinct(Ids(records))
  }

  /** Exactly the three release events, at strictly increasing times. */
  predicate ReleaseEvents(events: seq<AuditEvent>, t: Transition) {
    && |events| == 3
    && events[0].kind == EXPECTED_KINDS[0] && events[1].kind == EXPECTED_KINDS[1] && events[2].kind == EXPECTED_KINDS[2]
    && events[0].at < events[1].at < events[2].at
    && ExpectedProvenance(t, events[0], events[1])
  }

  ghost predicate Added(records: seq<Record>, t: Transition) {
    AllEvents(records) && Distinct(Ids(records)) && ReleaseEvents(Events(records), t)
  }

  /** What the code demands of the bytes, of the source lines and of the added lines. */
  ghost predicate Acceptable(decode: Decoder, source: Bytes, governance: Bytes, t: Transition) {
    && KeepsBytes(source, governance)
    && WellIdentified(Records(decode, source))
    && Added(Records(decode, governance[|source|..]), t)
    && Elements(Ids(Records(decode, governance[|source|..]))) !! Elements(Ids(Records(decode, source)))
  }

  /** The decoding loop over the source lines. */
  method SourceIds(decode: Decoder, source: Bytes) returns (ok: bool, ids: seq<string>)
    ensures ok <==> AllIdentified(Records(decode, source))
    ensures ok ==> ids == Ids(Records(decode, source))
  {
    ids := [];
    var records := Records(decode, source);
    for k := 0 to |records|
      invariant |ids| == k && forall n :: 0 <= n < k ==> records[n].Identified? && ids[n] == records[n].id
    {
      if records[k].Malformed? {
        return false, ids;
      }
      ids := ids + [records[k].id];
    }
    return true, ids;
  }

  /** The decoding loop over the added lines. */
  method AddedEvents(decode: Decoder, added: Bytes) returns (ok: bool, ids: seq<string>, events: seq<AuditEvent>)
    ensures ok <==> AllEvents(Records(decode, added))
    ensures ok ==> ids == Ids(Records(decode, added)) && events == Events(Records(decode, added))
  {
    ids, events := [], [];
    var records := Records(decode, added);
    for k := 0 to |records|
      invariant |ids| == |events| == k
      invariant forall n :: 0 <= n < k ==>
                  && records[n].Identified? && records[n].event.Some?
                  && ids[n] == records[n].id && events[n] == records[n].event.value
    {
      if records[k].Malformed? || records[k].event.None? {
        return false, ids, events;
      }
      ids := ids + [records[k].id];
      events := events + [records[k].event.value];
    }
    return true, ids, events;
  }

  /** The audit part of the transition check; `accepted` means that no blocker was raised. */
  method CheckAppend(decode: Decoder, source: Bytes, governance: Bytes, t: Transition) returns (accepted: bool)
    ensures accepted <==> Acceptable(decode, source, governance, t)
  {
    if !KeepsBytes(source, governance) {
      return false;
    }
    var sourceOk, sourceIds := SourceIds(decode, source);
    DistinctIffAllCounted(sourceIds);
    if !sourceOk || |Elements(sourceIds)| != |sourceIds| {
      return false;
    }
    var addedOk, addedIds, events := AddedEvents(decode, governance[|source|..]);
    DistinctIffAllCounted(addedIds);
    if !addedOk || !ReleaseEvents(events, t) || |Elements(addedIds)| != |addedIds| {
      return false;
    }
    return Elements(addedIds) !! Elements(sourceIds);
  }

  // ----- what acceptance means for the log

  /**
   An accepted log decodes to the source records, unchanged and in order, followed by exactly the
   three expected events at strictly increasing times, and no identity occurs twice in all of it.
   */
  lemma AppendIsEventLevel(decode: Decoder, source: Bytes, governance: Bytes, t: Transition)
    requires Acceptable(decode, source, governance, t)
    ensures
      var old_, all := Records(decode, source), Records(decode, governance);
      && |all| == |old_| + 3
      && all[..|old_|] == old_
      && AllEvents(all[|old_|..]) && ReleaseEvents(Events(all[|old_|..]), t)
      && WellIdentified(all)
    ensures EndsWithLf(source) && EndsWithLf(governance)
  {
    var added := governance[|source|..];
    assert governance == source + added;
    assert Lines([]) == [];
    RecordsOfBoth(decode, source, added);
    AppendedRecords(Records(decode, source), Records(decode, added), t);
  }

  lemma AppendedRecords(before: seq<Record>, added: seq<Record>, t: Transition)
    requires WellIdentified(before) && Added(added, t) && Elements(Ids(added)) !! Elements(Ids(before))
    ensures
      var all := before + added;
      && |all| == |before| + 3
      && all[..|before|] == before
      && AllEvents(all[|before|..]) && ReleaseEvents(Events(all[|before|..]), t)
      && WellIdentified(all)
  {
    var all := before + added;
    assert all[|before|..] == added && all[..|before|] == before;
    assert |Events(added)| == |added|;
    JoinedIdentities(before, added);
  }

  lemma JoinedIdentities(a: seq<Record>, b: seq<Record>)
    requires WellIdentified(a) && WellIdentified(b) && Elements(Ids(b)) !! Elements(Ids(a))
    ensures WellIdentified(a + b)
  {
    forall i, j | 0 <= i < j < |a + b| ensures Ids(a + b)[i] != Ids(a + b)[j] {
      if i < |a| <= j {
        assert Ids(a)[i] in Elements(Ids(a)) && Ids(b)[j - |a|] in Elements(Ids(b));
      } else if j < |a| {
        assert Ids(a)[i] != Ids(a)[j];
      } else {
        assert Ids(b)[i - |a|] != Ids(b)[j - |a|];
      }
    }
  }

  lemma AppendExtends(decode: Decoder, source: Bytes, governance: Bytes, t: Transition)
    requires Acceptable(decode, source, governance, t)
    ensures Records(decode, source) <= Records(decode, governance)
    ensures |Records(decode, governance)| == |Records(decode, source)| + 3
    ensures WellIdentified(Records(decode, governance))
  {
    AppendIsEventLevel(decode, source, governance, t);
    var before, all := Records(decode, source), Records(decode, governance);
    assert all == all[..|before|] + all[|before|..];
  }

  // ----- which appended lines are accepted

  /** The first event of a transition: the milestone enters validation. */
  function MilestoneEvent(id: string, at: int, t: Transition): AuditEvent {
    AuditEvent(id, "MILESTONE_STATE_TRANSITION", at, "artifex-core", Some(t.candidate),
               map["candidate_commit" := t.candidate, "to" := "VALIDATING", "from" := t.milestoneFrom,
                   "milestone" := "M11"])
  }

  /** The second one: the release becomes a candidate. */
  function ReleaseEvent(id: string, at: int, t: Transition): AuditEvent {
    AuditEvent(id, "RELEASE_STATE_TRANSITION", at, "artifex-core", Some(t.candidate),
               map["candidate_commit" := t.candidate, "to" := "CANDIDATE", "from" := t.releaseFrom])
  }

  /** The two core events of this transition, then the report of the independent validation, one later than the other.
      */
  predicate IsTransition(e: seq<AuditEvent>, t: Transition) {
    && |e| == 3
    && e[0] == MilestoneEvent(e[0].id, e[0].at, t)
    && e[1] == ReleaseEvent(e[1].id, e[1].at, t)
    && e[2].kind == "RELEASE_CANDIDATE_INDEPENDENT_VALIDATION"
    && e[0].at < e[1].at && e[1].at < e[2].at
  }

  lemma TransitionMeans(e: seq<AuditEvent>, t: Transition)
    ensures ReleaseEvents(e, t) <==> IsTransition(e, t)
  {
    if |e| == 3 {
      var m, r := MilestoneEvent(e[0].id, e[0].at, t), ReleaseEvent(e[1].id, e[1].at, t);
      assert m.payload == map["milestone" := "M11", "from" := t.milestoneFrom, "to" := "VALIDATING",
                              "candidate_commit" := t.candidate];
      assert r.payload == map["from" := t.releaseFrom, "to" := "CANDIDATE", "candidate_commit" := t.candidate];
    }
  }

  lemma RecordsOfLines(decode: Decoder, lines: seq<Bytes>)
    requires forall k :: 0 <= k < |lines| ==> IsLine(lines[k])
    ensures Records(decode, WriteLines(lines)) == Decoded(decode, lines)
  {
    LinesReadBack(lines);
  }

  lemma {:induction false} WrittenEndsWithLf(lines: seq<Bytes>)
    requires lines != []
    ensures EndsWithLf(WriteLines(lines))
  {
    if |lines| > 1 { WrittenEndsWithLf(lines[1..]); }
  }

  /** Records may be added exactly when they are the events of the transition with identities of their own. */
  lemma AddedMeans(records: seq<Record>, t: Transition)
    ensures Added(records, t) <==>
            AllEvents(records) && IsTransition(Events(records), t) && Distinct(Ids(records))
  {
    if AllEvents(records) { TransitionMeans(Events(records), t); }
  }

  lemma WrittenKeepsBytes(source: Bytes, lines: seq<Bytes>)
    requires EndsWithLf(source) && lines != []
    ensures KeepsBytes(source, source + WriteLines(lines))
    ensures (source + WriteLines(lines))[|source|..] == WriteLines(lines)
  {
    assert (source + WriteLines(lines))[|source|..] == WriteLines(lines);
    WrittenEndsWithLf(lines);
  }

  /** The demands on an extension, on the records of its two parts. */
  ghost predicate Extends(before: seq<Record>, added: seq<Record>, t: Transition) {
    WellIdentified(before) && Added(added, t) && Elements(Ids(added)) !! Elements(Ids(before))
  }

  lemma AcceptableMeans(decode: Decoder, source: Bytes, governance: Bytes, added: Bytes, records: seq<Record>,
                        t: Transition)
    requires KeepsBytes(source, governance) && governance[|source|..] == added && Records(decode, added) == records
    ensures Acceptable(decode, source, governance, t) <==> Extends(Records(decode, source), records, t)
  {
  }

  lemma WrittenJudged(decode: Decoder, source: Bytes, lines: seq<Bytes>, governance: Bytes, t: Transition)
    requires EndsWithLf(source) && lines != [] && governance == source + WriteLines(lines)
    requires Records(decode, WriteLines(lines)) == Decoded(decode, lines)
    ensures Acceptable(decode, source, governance, t) <==>
            Extends(Records(decode, source), Decoded(decode, lines), t)
  {
    WrittenKeepsBytes(source, lines);
    AcceptableMeans(decode, source, governance, WriteLines(lines), Decoded(decode, lines), t);
  }

  /**
   Which lines may be appended, in terms of what they decode to: records that may be added, with
   identities that the log does not have yet.
   */
  lemma AppendedLinesJudged(decode: Decoder, source: Bytes, lines: seq<Bytes>, governance: Bytes, t: Transition)
    requires EndsWithLf(source) && lines != [] && forall k :: 0 <= k < |lines| ==> IsLine(lines[k])
    requires governance == source + WriteLines(lines)
    ensures Acceptable(decode, source, governance, t) <==>
            Extends(Records(decode, source), Decoded(decode, lines), t)
  {
    RecordsOfLines(decode, lines);
    WrittenJudged(decode, source, lines, governance, t);
  }

  /** A chain of accepted transitions, each starting from the log the previous one left. */
  ghost predicate Chain(decode: Decoder, logs: seq<Bytes>, ts: seq<Transition>) {
    |logs| == |ts| + 1 && forall k :: 0 <= k < |ts| ==> Acceptable(decode, logs[k], logs[k + 1], ts[k])
  }

  /** Over any chain no earlier event is lost, changed or reordered, and each transition adds three. */
  lemma {:induction false} ChainKeepsHistory(decode: Decoder, logs: seq<Bytes>, ts: seq<Transition>, i: nat, j: nat)
    requires Chain(decode, logs, ts) && i <= j < |logs|
    ensures Records(decode, logs[i]) <= Records(decode, logs[j])
    ensures |Records(decode, logs[j])| == |Records(decode, logs[i])| + 3 * (j - i)
    ensures i < j ==> WellIdentified(Records(decode, logs[j]))
    decreases j
  {
    if i < j {
      ChainKeepsHistory(decode, logs, ts, i, j - 1);
      AppendExtends(decode, logs[j - 1], logs[j], ts[j - 1]);
    }
  }
}

/** Safety bounds on an archive's inventory. */
module ArchiveBounds {
  import opened AsciiText
  import opened Counting
  import opened ArchivePlan

  function PathParts(s: string): seq<string>
    decreases |s|
  {
    var n := Slash(s);
    if n == |s| then [s] else [s[..n]] + PathParts(s[n + 1..])
  }

  function Slash(s: string): (n: nat)
    ensures n <= |s|
  {
    if s == [] || s[0] == '/' then 0 else 1 + Slash(s[1..])
  }

  /** Relative, without backslash, colon, empty or dot parts. */
  predicate SafeName(name: string) {
    && name != "" && '\\' !in name
    && forall k :: 0 <= k < |PathParts(name)| ==>
         && PathParts(name)[k] != "" && PathParts(name)[k] != "." && PathParts(name)[k] != ".."
         && ':' !in PathParts(name)[k]
  }

  function FoldedNames(a: Archive): seq<string> {
    seq(|a|, k requires 0 <= k < |a| => FoldText(a[k].name))
  }

  function TotalSize(a: Archive): nat {
    if a == [] then 0 else |a[0].content| + TotalSize(a[1..])
  }

  predicate Bounded(a: Archive) {
    && 0 < |a| <= 20000
    && (forall k :: 0 <= k < |a| ==> SafeName(a[k].name) && |a[k].content| <= 512 * 1024 * 1024)
    && Distinct(Names(a)) && Distinct(FoldedNames(a))
    && TotalSize(a) <= 1024 * 1024 * 1024
  }

  // ----- what the bounds mean

  function JoinedParts(parts: seq<string>): string
    requires parts != []
  {
    if |parts| == 1 then parts[0] else parts[0] + ("/" + JoinedParts(parts[1..]))
  }

  lemma {:induction false} SlashAfter(part: string, rest: string)
    requires '/' !in part
    ensures Slash(part + ("/" + rest)) == |part| && Slash(part) == |part|
  {
    if part != "" {
      assert part == [part[0]] + part[1..];
      assert (part + ("/" + rest))[1..] == part[1..] + ("/" + rest);
      SlashAfter(part[1..], rest);
    }
  }

  lemma FirstPathPart(part: string, rest: string)
    requires '/' !in part
    ensures PathParts(part) == [part] && PathParts(part + ("/" + rest)) == [part] + PathParts(rest)
  {
    var s := part + ("/" + rest);
    SlashAfter(part, rest);
    assert s[..|part|] == part && s[|part| + 1..] == rest;
  }

  /** The parts of a path are what stands between its slashes. */
  lemma {:induction false} PartsReadBack(parts: seq<string>)
    requires parts != [] && forall k :: 0 <= k < |parts| ==> '/' !in parts[k]
    ensures PathParts(JoinedParts(parts)) == parts
  {
    if |parts| == 1 {
      FirstPathPart(parts[0], "");
    } else {
      PartsReadBack(parts[1..]);
      FirstPathPart(parts[0], JoinedParts(parts[1..]));
    }
  }

  lemma {:induction false} CharOfJoined(parts: seq<string>, c: char)
    requires parts != [] && c != '/'
    ensures c in JoinedParts(parts) <==> exists k :: 0 <= k < |parts| && c in parts[k]
  {
    if |parts| > 1 {
      CharOfJoined(parts[1..], c);
      assert forall k :: 0 <= k < |parts[1..]| ==> parts[1..][k] == parts[k + 1];
      if k :| 0 <= k < |parts| && c in parts[k] { assert k > 0 ==> c in parts[1..][k - 1]; }
    }
  }

  /** A safe name is a relative path of ordinary parts: none is empty or a dot part, none has a colon or a backslash. */
  lemma SafeMeans(parts: seq<string>)
    requires parts != [] && forall k :: 0 <= k < |parts| ==> '/' !in parts[k]
    ensures SafeName(JoinedParts(parts)) <==>
            forall k :: 0 <= k < |parts| ==> parts[k] !in {"", ".", ".."} && ':' !in parts[k] && '\\' !in parts[k]
  {
    PartsReadBack(parts);
    CharOfJoined(parts, '\\');
    assert parts[0] != "" ==> JoinedParts(parts) != "";
  }

  /** The size of an archive is that of its members together. */
  lemma {:induction false} TotalSizeMore(a: Archive, m: Member)
    ensures TotalSize(a + [m]) == TotalSize(a) + |m.content| && TotalSize([]) == 0
  {
    if a == [] {
      assert [m][1..] == [];
    } else {
      assert (a + [m])[1..] == a[1..] + [m];
      TotalSizeMore(a[1..], m);
    }
  }

  /** Two members are within bounds exactly when each has a safe name and at most 512 MiB and their names do not differ
      in case only. */
  lemma TwoMembersBounded(a: Member, b: Member)
    ensures Bounded([a, b]) <==>
            && SafeName(a.name) && SafeName(b.name)
            && |a.content| <= 536_870_912 && |b.content| <= 536_870_912
            && FoldText(a.name) != FoldText(b.name)
  {
    assert [a, b] == [a] + [b] && [a] == [] + [a];
    TotalSizeMore([a], b);
    TotalSizeMore([], a);
    assert [a, b][0] == a && [a, b][1] == b;
    assert Names([a, b]) == [a.name, b.name] && FoldedNames([a, b]) == [FoldText(a.name), FoldText(b.name)];
    DistinctTwo(a.name, b.name);
    DistinctTwo(FoldText(a.name), FoldText(b.name));
  }

  lemma DistinctTwo(x: string, y: string)
    ensures Distinct([x, y]) <==> x != y
  {
    assert [x, y][0] == x && [x, y][1] == y;
  }

  /** The limits on the number of members and on their total size. */
  lemma TooMuchIsRefused(a: Archive)
    ensures |a| == 0 || |a| > 20_000 || TotalSize(a) > 1_073_741_824 ==> !Bounded(a)
    ensures !Distinct(FoldedNames(a)) ==> !Bounded(a)
  {
  }
}

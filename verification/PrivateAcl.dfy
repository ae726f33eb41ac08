/**
 The validator of a private Windows DACL given as SDDL text (section 2.5.1 of MS-DTYP): the access
 control list must be inheritance-protected and hold explicit full control for the current user
 and for LocalSystem only.
 */
module PrivateAcl {
  import opened AsciiText
  import opened Options
  import opened Counting

  const LOCAL_SYSTEM := "S-1-5-18"
  const FULL_CONTROL: set<string> := {"FA", "F", "0X1F01FF"}

  // ----- text functions of the original

  function UpperChar(c: char): char {
    if 'a' <= c <= 'z' then ((c as int) - 32) as char else c
  }

  function Upper(s: string): (r: string)
    ensures |r| == |s|
  {
    seq(|s|, k requires 0 <= k < |s| => UpperChar(s[k]))
  }

  predicate Breaks(c: char) {
    c == '\r' || c == '\n'
  }

  lemma BreaksAre(c: char)
    ensures Breaks(c) <==> c as int in {10, 13}
  {
  }

  /** Length of the stretch of characters before the first one that satisfies `stop`. */
  function Until(stop: char -> bool, s: string): (n: nat)
    ensures n <= |s| && (n < |s| ==> stop(s[n])) && forall k :: 0 <= k < n ==> !stop(s[k])
  {
    if s == [] || stop(s[0]) then 0 else 1 + Until(stop, s[1..])
  }

  /** First match of `D:` followed by at least one character of the same line, to the end of that line. */
  function FindDacl(s: string): Option<string> {
    if |s| < 3 then None
    else if s[0] == 'D' && s[1] == ':' && !Breaks(s[2]) then Some(s[..2 + Until(Breaks, s[2..])])
    else FindDacl(s[1..])
  }

  predicate IsParen(c: char) {
    c == '(' || c == ')'
  }

  /** All innermost parenthesised groups, left to right. */
  function Groups(s: string): seq<string>
    decreases |s|
  {
    if s == [] then []
    else if s[0] == '(' then
      var n := Until(IsParen, s[1..]);
      if 1 + n < |s| && s[1 + n] == ')' then [s[1..1 + n]] + Groups(s[n + 2..]) else Groups(s[1..])
    else Groups(s[1..])
  }

  predicate IsSemicolon(c: char) {
    c == ';'
  }

  function Fields(s: string): (fs: seq<string>)
    ensures fs != []
    decreases |s|
  {
    var n := Until(IsSemicolon, s);
    if n == |s| then [s] else [s[..n]] + Fields(s[n + 1..])
  }

  /** The flags cut into pairs of characters. */
  function Pairs(s: string): set<string> {
    if |s| < 2 then {} else {s[..2]} + Pairs(s[2..])
  }

  /** The part after the last hyphen is 500. */
  predicate IsBuiltinAdministrator(sid: string) {
    sid == "500" || (|sid| >= 4 && sid[|sid| - 4..] == "-500")
  }

  // ----- entries

  datatype Ace = Ace(kind: string, flags: string, rights: string, objectId: string, inheritId: string, sid: string)

  function ParseAce(entry: string): Option<Ace> {
    var fs := Fields(entry);
    if |fs| == 6 then Some(Ace(fs[0], fs[1], fs[2], fs[3], fs[4], fs[5])) else None
  }

  function Required(current: string): set<string> {
    {Upper(current), LOCAL_SYSTEM}
  }

  function Expected(current: string): set<string> {
    {Upper(current), LOCAL_SYSTEM, "SY"} + (if IsBuiltinAdministrator(Upper(current)) then {"LA"} else {})
  }

  /** The principal an accepted entry stands for, through the SY and LA aliases. */
  function Principal(a: Ace, current: string): string {
    if Upper(a.sid) == "SY" then LOCAL_SYSTEM
    else if Upper(a.sid) == "LA" then Upper(current)
    else Upper(a.sid)
  }

  /** An explicit full-control allow entry of an expected principal, inheritable exactly for directories. */
  predicate Grants(a: Ace, current: string, directory: bool) {
    && a.kind == "A"
    && Upper(a.sid) in Expected(current)
    && !Contains(a.flags, "ID")
    && Upper(a.rights) in FULL_CONTROL
    && (if directory then {"OI", "CI"} <= Pairs(a.flags) else a.flags == "")
  }

  /** Inheritance is cut: a P stands between `D:` and the first entry. */
  predicate Protected(dacl: string) {
    |dacl| >= 2 && 'P' in dacl[2..][..Until(c => c == '(', dacl[2..])]
  }

  datatype Verdict = Accepted | NoDacl | Inherits | WrongCount | InvalidEntry | UnexpectedEntry | Incomplete

  /** How entries are read: parsed, judged, and resolved to the principal they stand for. */
  datatype Reading = Reading(parse: string -> Option<Ace>, grants: Ace -> bool, principal: Ace -> string)

  function ReadingFor(current: string, directory: bool): Reading {
    Reading(e => ParseAce(e), a => Grants(a, current, directory), a => Principal(a, current))
  }

  ghost predicate AllGrant(r: Reading, entries: seq<string>) {
    forall k :: 0 <= k < |entries| ==> r.parse(entries[k]).Some? && r.grants(r.parse(entries[k]).value)
  }

  function Principals(r: Reading, entries: seq<string>): seq<string>
    requires forall k :: 0 <= k < |entries| ==> r.parse(entries[k]).Some?
  {
    seq(|entries|, k requires 0 <= k < |entries| => r.principal(r.parse(entries[k]).value))
  }

  /** The conditions of the validator, as one statement about the DACL text. */
  ghost predicate Private(dacl: string, current: string, directory: bool) {
    && Protected(dacl)
    && |Groups(dacl)| == |Required(current)|
    && AllGrant(ReadingFor(current, directory), Groups(dacl))
    && Elements(Principals(ReadingFor(current, directory), Groups(dacl))) == Required(current)
  }

  /** What is wrong with an entry, if anything. */
  function FailureOf(r: Reading, entry: string): Option<Verdict> {
    if r.parse(entry).None? then Some(InvalidEntry)
    else if !r.grants(r.parse(entry).value) then Some(UnexpectedEntry)
    else None
  }

  /** The loop over the entries: every one must grant, and the principals they stand for are collected. */
  method Observe(r: Reading, entries: seq<string>) returns (failure: Option<Verdict>, observed: set<string>)
    ensures failure.None? <==> AllGrant(r, entries)
    ensures failure.Some? ==> exists k :: 0 <= k < |entries| && AllGrant(r, entries[..k])
                                          && failure == FailureOf(r, entries[k])
    ensures failure.None? ==> observed == Elements(Principals(r, entries))
  {
    observed := {};
    for k := 0 to |entries|
      invariant AllGrant(r, entries[..k])
      invariant observed == Elements(Principals(r, entries[..k]))
    {
      var ace := r.parse(entries[k]);
      if ace.None? {
        return Some(InvalidEntry), observed;
      }
      if !r.grants(ace.value) {
        return Some(UnexpectedEntry), observed;
      }
      assert entries[..k + 1] == entries[..k] + [entries[k]];
      assert Principals(r, entries[..k + 1]) == Principals(r, entries[..k]) + [r.principal(ace.value)];
      observed := observed + {r.principal(ace.value)};
    }
    assert entries[..|entries|] == entries;
    failure := None;
  }

  /** The verdict on the entries of a protected list: their number first, then the first entry that does not grant, then
      the principals. */
  ghost predicate JudgesEntries(verdict: Verdict, entries: seq<string>, current: string, directory: bool) {
    var r := ReadingFor(current, directory);
    if |entries| != |Required(current)| then verdict == WrongCount
    else if AllGrant(r, entries) then
      verdict == if Elements(Principals(r, entries)) == Required(current) then Accepted else Incomplete
    else
      exists k :: 0 <= k < |entries| && AllGrant(r, entries[..k]) && FailureOf(r, entries[k]) == Some(verdict)
  }

  method Validate(value: string, current: string, directory: bool) returns (verdict: Verdict)
    ensures verdict.Accepted? <==> FindDacl(value).Some? && Private(FindDacl(value).value, current, directory)
    ensures verdict.NoDacl? <==> FindDacl(value).None?
    ensures verdict.Inherits? <==> FindDacl(value).Some? && !Protected(FindDacl(value).value)
    ensures FindDacl(value).Some? && Protected(FindDacl(value).value) ==>
              JudgesEntries(verdict, Groups(FindDacl(value).value), current, directory)
  {
    var found := FindDacl(value);
    if found.None? {
      return NoDacl;
    }
    if !Protected(found.value) {
      return Inherits;
    }
    var entries := Groups(found.value);
    if |entries| != |Required(current)| {
      return WrongCount;
    }
    var failure, observed := Observe(ReadingFor(current, directory), entries);
    if failure.Some? {
      return failure.value;
    }
    return if observed == Required(current) then Accepted else Incomplete;
  }

  // ----- what acceptance means

  /** The entry allows full control, is not inherited, and is passed on to children exactly for directories. */
  predicate IsExplicitFullControl(entry: string, directory: bool) {
    match ParseAce(entry)
    case None => false
    case Some(a) =>
      && a.kind == "A" && !Contains(a.flags, "ID") && Upper(a.rights) in FULL_CONTROL
      && (if directory then {"OI", "CI"} <= Pairs(a.flags) else a.flags == "")
  }

  /** An entry grants exactly when it is an explicit full-control entry of an expected principal. */
  lemma GrantsMeans(entry: string, current: string, directory: bool)
    ensures
      var a := ParseAce(entry);
      a.Some? && Grants(a.value, current, directory) <==>
      IsExplicitFullControl(entry, directory) && Upper(Fields(entry)[5]) in Expected(current)
  {
  }

  lemma GrantingIsExplicit(entries: seq<string>, current: string, directory: bool)
    requires AllGrant(ReadingFor(current, directory), entries)
    ensures forall k :: 0 <= k < |entries| ==> IsExplicitFullControl(entries[k], directory)
  {
    forall k | 0 <= k < |entries| ensures IsExplicitFullControl(entries[k], directory) {
      assert ReadingFor(current, directory).parse(entries[k]) == ParseAce(entries[k]);
      assert Grants(ParseAce(entries[k]).value, current, directory);
    }
  }

  /**
   Acceptance means: the list is protected, every entry is an explicit full-control allow entry of
   a required principal, and every required principal has exactly one entry (a single one when the
   current user is LocalSystem).
   */
  lemma AcceptedGrantsExactly(dacl: string, current: string, directory: bool)
    requires Private(dacl, current, directory)
    ensures Protected(dacl) && |Groups(dacl)| == (if Upper(current) == LOCAL_SYSTEM then 1 else 2)
    ensures forall k :: 0 <= k < |Groups(dacl)| ==> IsExplicitFullControl(Groups(dacl)[k], directory)
    ensures
      var ps := Principals(ReadingFor(current, directory), Groups(dacl));
      && (forall k :: 0 <= k < |ps| ==> ps[k] in Required(current))
      && (forall p :: p in Required(current) ==>
            exists k :: 0 <= k < |ps| && ps[k] == p && forall j :: 0 <= j < |ps| && ps[j] == p ==> j == k)
  {
    var ps := Principals(ReadingFor(current, directory), Groups(dacl));
    OncePerElement(ps, Required(current));
    GrantingIsExplicit(Groups(dacl), current, directory);
    assert Required(current) ==
           if Upper(current) == LOCAL_SYSTEM then {LOCAL_SYSTEM} else {Upper(current), LOCAL_SYSTEM};
  }

  /** A list as long as the set of its elements names each of them exactly once. */
  lemma OncePerElement(ps: seq<string>, all: set<string>)
    requires Elements(ps) == all && |ps| == |all|
    ensures forall k :: 0 <= k < |ps| ==> ps[k] in all
    ensures forall p :: p in all ==>
              exists k :: 0 <= k < |ps| && ps[k] == p && forall j :: 0 <= j < |ps| && ps[j] == p ==> j == k
  {
    DistinctIffAllCounted(ps);
    forall p | p in all
      ensures exists k :: 0 <= k < |ps| && ps[k] == p && forall j :: 0 <= j < |ps| && ps[j] == p ==> j == k
    {
      assert p in Elements(ps);
      var k :| 0 <= k < |ps| && ps[k] == p;
      assert forall j :: 0 <= j < |ps| && ps[j] == p ==> j == k;
    }
    forall k | 0 <= k < |ps| ensures ps[k] in all { assert ps[k] in Elements(ps); }
  }

  // ----- lists read back

  predicate Plain(s: string) {
    forall k :: 0 <= k < |s| ==> !IsParen(s[k])
  }

  predicate AllPlain(entries: seq<string>) {
    forall k :: 0 <= k < |entries| ==> Plain(entries[k])
  }

  /** A list of entries written out one after the other. */
  function Written(entries: seq<string>): string {
    if entries == [] then "" else "(" + entries[0] + ")" + Written(entries[1..])
  }

  /** What the validator judges in place of the written entries: the innermost groups of each, in order. */
  function Judged(entries: seq<string>): seq<string> {
    if entries == [] then [] else Groups("(" + entries[0] + ")") + Judged(entries[1..])
  }

  lemma {:induction false} PlainPrefixSkipped(prefix: string, rest: string)
    requires Plain(prefix)
    ensures Groups(prefix + rest) == Groups(rest)
  {
    if prefix == [] {
      assert prefix + rest == rest;
    } else {
      assert (prefix + rest)[1..] == prefix[1..] + rest;
      PlainPrefixSkipped(prefix[1..], rest);
    }
  }

  lemma UntilSkips(stop: char -> bool, s: string, rest: string)
    requires (forall k :: 0 <= k < |s| ==> !stop(s[k])) && rest != [] && stop(rest[0])
    ensures Until(stop, s + rest) == |s|
  {
    assert (s + rest)[|s|] == rest[0];
    assert forall k :: 0 <= k < |s| ==> (s + rest)[k] == s[k];
  }

  lemma {:induction false} UntilStaysInFront(s: string, rest: string)
    requires s != [] && IsParen(s[|s| - 1])
    ensures Until(IsParen, s) < |s| && Until(IsParen, s + rest) == Until(IsParen, s)
  {
    if !IsParen(s[0]) {
      assert (s + rest)[1..] == s[1..] + rest;
      UntilStaysInFront(s[1..], rest);
    }
  }

  predicate Closes(s: string) {
    s == [] || s[|s| - 1] == ')'
  }

  lemma ClosedGroup(s: string, n: nat)
    requires s != [] && s[0] == '(' && n == Until(IsParen, s[1..]) && 1 + n < |s| && s[1 + n] == ')'
    ensures Groups(s) == [s[1..1 + n]] + Groups(s[n + 2..])
  {
  }

  lemma NoGroupHere(s: string)
    requires s != []
    requires s[0] == '(' ==>
               var n := Until(IsParen, s[1..]);
               1 + n < |s| && s[1 + n] != ')'
    ensures Groups(s) == Groups(s[1..])
  {
  }

  lemma SameGroupInFront(a: string, b: string, n: nat)
    requires 1 + n < |a|
    ensures (a + b)[1 + n] == a[1 + n] && (a + b)[1..1 + n] == a[1..1 + n] && (a + b)[n + 2..] == a[n + 2..] + b
  {
  }

  lemma Regroup(x: seq<string>, y: seq<string>, z: seq<string>)
    ensures x + (y + z) == x + y + z
  {
  }

  /** Behind a closing parenthesis the search for groups starts afresh. */
  lemma {:induction false} GroupsSplit(a: string, b: string)
    requires Closes(a)
    ensures Groups(a + b) == Groups(a) + Groups(b)
    decreases |a|
  {
    if a == [] {
      assert a + b == b;
    } else {
      assert (a + b)[1..] == a[1..] + b;
      if a[0] != '(' {
        GroupsSplit(a[1..], b);
      } else {
        UntilStaysInFront(a[1..], b);
        var n := Until(IsParen, a[1..]);
        SameGroupInFront(a, b, n);
        if a[1 + n] == ')' {
          GroupsSplit(a[n + 2..], b);
          ClosedGroup(a, n);
          ClosedGroup(a + b, n);
          Regroup([a[1..1 + n]], Groups(a[n + 2..]), Groups(b));
        } else {
          GroupsSplit(a[1..], b);
          NoGroupHere(a);
          NoGroupHere(a + b);
        }
      }
    }
  }

  /** No group has a parenthesis in it. */
  lemma {:induction false} GroupsArePlain(s: string)
    ensures AllPlain(Groups(s))
    decreases |s|
  {
    if s != [] {
      GroupsArePlain(s[1..]);
      if s[0] == '(' {
        var n := Until(IsParen, s[1..]);
        if 1 + n < |s| && s[1 + n] == ')' {
          GroupsArePlain(s[n + 2..]);
          assert forall k :: 0 <= k < n ==> s[1..1 + n][k] == s[1..][k];
        }
      }
    }
  }

  lemma OneGroup(e: string, more: string)
    requires Plain(e)
    ensures Groups("(" + e + ")" + more) == [e] + Groups(more)
  {
    var s := "(" + e + ")" + more;
    assert s[1..] == e + (")" + more);
    UntilSkips(IsParen, e, ")" + more);
    assert s[1..1 + |e|] == e && s[|e| + 2..] == more;
  }

  lemma {:induction false} GroupsOfWritten(entries: seq<string>)
    ensures Groups(Written(entries)) == Judged(entries)
  {
    if entries != [] {
      GroupsOfWritten(entries[1..]);
      GroupsSplit("(" + entries[0] + ")", Written(entries[1..]));
    }
  }

  lemma {:induction false} PlainIsJudged(entries: seq<string>)
    requires AllPlain(entries)
    ensures Judged(entries) == entries
  {
    if entries != [] {
      PlainIsJudged(entries[1..]);
      OneGroup(entries[0], "");
      assert "(" + entries[0] + ")" + "" == "(" + entries[0] + ")";
    }
  }

  /** Any list of entries written out and searched gives the innermost groups of each; these are the entries themselves
      if and only if no entry has a parenthesis. */
  lemma WrittenReadsBack(prefix: string, entries: seq<string>)
    requires Plain(prefix)
    ensures Groups(prefix + Written(entries)) == Judged(entries)
    ensures Groups(prefix + Written(entries)) == entries <==> AllPlain(entries)
  {
    PlainPrefixSkipped(prefix, Written(entries));
    GroupsOfWritten(entries);
    GroupsArePlain(prefix + Written(entries));
    if AllPlain(entries) { PlainIsJudged(entries); }
  }

  predicate NoSemicolon(s: string) {
    forall k :: 0 <= k < |s| ==> s[k] != ';'
  }

  function Joined(fs: seq<string>): string
    requires fs != []
  {
    if |fs| == 1 then fs[0] else fs[0] + (";" + Joined(fs[1..]))
  }

  lemma OneField(f: string, rest: string)
    requires NoSemicolon(f)
    ensures Fields(f + (";" + rest)) == [f] + Fields(rest)
  {
    var s := f + (";" + rest);
    UntilSkips(IsSemicolon, f, ";" + rest);
    assert s[..|f|] == f && s[|f| + 1..] == rest;
  }

  /** Fields without a semicolon, joined by semicolons, split back into themselves. */
  lemma {:induction false} FieldsReadBack(fs: seq<string>)
    requires fs != [] && forall k :: 0 <= k < |fs| ==> NoSemicolon(fs[k])
    ensures Fields(Joined(fs)) == fs
  {
    var f := fs[0];
    if |fs| == 1 {
      assert Until(IsSemicolon, f) == |f|;
    } else {
      FieldsReadBack(fs[1..]);
      OneField(f, Joined(fs[1..]));
    }
  }

  // ----- the verdict on a written list

  function WriteDacl(flags: string, entries: seq<string>): string {
    "D:" + flags + Written(entries)
  }

  /** The list is what the validator is for: protected, as many entries as required principals, all of them granting,
      and all principals present. */
  ghost predicate Intended(flags: string, entries: seq<string>, current: string, directory: bool) {
    && 'P' in flags
    && |entries| == |Required(current)|
    && AllGrant(ReadingFor(current, directory), entries)
    && Elements(Principals(ReadingFor(current, directory), entries)) == Required(current)
  }

  lemma ProtectedByFlags(flags: string, entries: seq<string>)
    requires Plain(flags)
    ensures Protected(WriteDacl(flags, entries)) <==> 'P' in flags
  {
    var dacl, w := WriteDacl(flags, entries), Written(entries);
    assert dacl[2..] == flags + w;
    if entries == [] {
      assert w == "" && flags + w == flags;
    } else {
      assert w[0] == '(';
      UntilSkips(c => c == '(', flags, w);
    }
    assert dacl[2..][..|flags|] == flags;
  }

  /**
   The verdict on any list, whatever its entries are: it is accepted exactly when the judged entries are
   as intended.  Without parentheses in the entries that is the intended meaning of the list itself, and
   with one the judged entries are not the written ones.
   */
  lemma WrittenDaclJudged(flags: string, entries: seq<string>, current: string, directory: bool)
    requires Plain(flags)
    ensures Private(WriteDacl(flags, entries), current, directory) <==>
            Intended(flags, Judged(entries), current, directory)
    ensures Groups(WriteDacl(flags, entries)) == entries <==> AllPlain(entries)
    ensures AllPlain(entries) ==>
              (Private(WriteDacl(flags, entries), current, directory) <==> Intended(flags, entries, current, directory))
  {
    ProtectedByFlags(flags, entries);
    assert WriteDacl(flags, entries) == ("D:" + flags) + Written(entries);
    WrittenReadsBack("D:" + flags, entries);
  }

  // ----- finding the list in the output of the tool

  predicate OneLine(s: string) {
    forall k :: 0 <= k < |s| ==> !Breaks(s[k])
  }

  /** The text has no `D:` in it. */
  predicate WithoutDacl(s: string) {
    forall k :: 0 <= k < |s| - 1 ==> !(s[k] == 'D' && s[k + 1] == ':')
  }

  lemma LineEnds(tail: string, rest: string)
    requires OneLine(tail) && (rest == "" || Breaks(rest[0]))
    ensures Until(Breaks, tail + rest) == |tail|
  {
    if rest == "" {
      assert tail + rest == tail;
    } else {
      UntilSkips(Breaks, tail, rest);
    }
  }

  lemma DaclAtHead(dacl: string, rest: string)
    requires "D:" <= dacl && |dacl| > 2 && OneLine(dacl) && (rest == "" || Breaks(rest[0]))
    ensures FindDacl(dacl + rest) == Some(dacl)
  {
    var tail := dacl[2..];
    TailIsOneLine(dacl);
    LineEnds(tail, rest);
    HeadOfDacl(dacl);
    SeamOfDacl(dacl, tail, rest);
    FoundAtHead(dacl + rest, |tail|);
  }

  lemma TailIsOneLine(dacl: string)
    requires |dacl| > 2 && OneLine(dacl)
    ensures OneLine(dacl[2..])
  {
    assert forall k :: 0 <= k < |dacl[2..]| ==> dacl[2..][k] == dacl[k + 2];
  }

  lemma SeamOfDacl(dacl: string, tail: string, rest: string)
    requires |dacl| > 2 && tail == dacl[2..]
    ensures
      var s := dacl + rest;
      s[2..] == tail + rest && s[..2 + |tail|] == dacl && s[0] == dacl[0] && s[1] == dacl[1] && s[2] == tail[0]
  {
  }

  lemma FoundAtHead(s: string, n: nat)
    requires |s| >= 3 && s[0] == 'D' && s[1] == ':' && !Breaks(s[2]) && n == Until(Breaks, s[2..])
    ensures FindDacl(s) == Some(s[..2 + n])
  {
  }

  lemma HeadOfDacl(dacl: string)
    requires "D:" <= dacl
    ensures dacl[0] == 'D' && dacl[1] == ':'
  {
    assert dacl[..2] == "D:";
  }

  /** Whatever stands in front, as long as it has no `D:`, is passed over: the list is found up to the end of its
      line. */
  lemma {:induction false} DaclFound(prefix: string, dacl: string, rest: string)
    requires WithoutDacl(prefix) && "D:" <= dacl && |dacl| > 2 && OneLine(dacl) && (rest == "" || Breaks(rest[0]))
    ensures FindDacl(prefix + (dacl + rest)) == Some(dacl)
  {
    var s := prefix + (dacl + rest);
    if prefix == "" {
      assert s == dacl + rest;
      DaclAtHead(dacl, rest);
    } else {
      assert s[1..] == prefix[1..] + (dacl + rest) && s[0] == prefix[0];
      assert forall k :: 0 <= k < |prefix[1..]| ==> prefix[1..][k] == prefix[k + 1];
      assert s[1] == if |prefix| > 1 then prefix[1] else 'D';
      DaclFound(prefix[1..], dacl, rest);
    }
  }

  /** In the tool's output, a line with the file's name and a line with the list, the list judged is the written one. */
  lemma SavedDaclFound(name: string, flags: string, entries: seq<string>)
    requires WithoutDacl(name) && OneLine(flags + Written(entries)) && flags + Written(entries) != ""
    ensures FindDacl(name + "\r\n" + WriteDacl(flags, entries) + "\r\n") == Some(WriteDacl(flags, entries))
  {
    var dacl := WriteDacl(flags, entries);
    assert dacl == "D:" + (flags + Written(entries));
    var prefix := name + "\r\n";
    assert forall k :: 0 <= k < |name| ==> prefix[k] == name[k];
    assert OneLine(dacl);
    DaclFound(prefix, dacl, "\r\n");
    assert prefix + (dacl + "\r\n") == name + "\r\n" + dacl + "\r\n";
  }

  /** No list is found exactly when every `D:` ends its line. */
  lemma {:induction false} NoDaclMeans(s: string)
    ensures FindDacl(s).None? <==> forall k :: 0 <= k < |s| - 2 && s[k] == 'D' && s[k + 1] == ':' ==> Breaks(s[k + 2])
  {
    if |s| >= 3 && !(s[0] == 'D' && s[1] == ':' && !Breaks(s[2])) {
      var t := s[1..];
      NoDaclMeans(t);
      if FindDacl(t).None? {
        forall k | 0 <= k < |s| - 2 && s[k] == 'D' && s[k + 1] == ':' ensures Breaks(s[k + 2]) {
          if k > 0 { assert t[k - 1] == 'D' && t[k] == ':'; }
        }
      } else {
        var k :| 0 <= k < |t| - 2 && t[k] == 'D' && t[k + 1] == ':' && !Breaks(t[k + 2]);
        assert s[k + 1] == 'D' && s[k + 1 + 1] == ':' && !Breaks(s[k + 1 + 2]);
      }
    }
  }

  // ----- the fields of an entry

  lemma UpperLetters(k: nat)
    requires k < 26
    ensures UpperChar(LOWER[k]) == UPPER[k]
  {
  }

  lemma UpperOther(c: char)
    ensures c !in LOWER ==> UpperChar(c) == c
  {
    if 'a' <= c <= 'z' { assert LOWER[c as int - 'a' as int] == c; }
  }

  /** Each small letter becomes its capital, and nothing else changes. */
  lemma UpperMeans(s: string, i: nat)
    requires i < |s|
    ensures forall k :: 0 <= k < 26 && s[i] == LOWER[k] ==> Upper(s)[i] == UPPER[k]
    ensures s[i] !in LOWER ==> Upper(s)[i] == s[i]
  {
    forall k | 0 <= k < 26 && s[i] == LOWER[k] ensures Upper(s)[i] == UPPER[k] { UpperLetters(k); }
    UpperOther(s[i]);
  }

  /** The pair of characters number `k`. */
  predicate PairAt(s: string, k: nat, w: string) {
    2 * k + 2 <= |s| && s[2 * k..2 * k + 2] == w
  }

  lemma PairFurther(s: string, k: nat, w: string)
    requires |s| >= 2
    ensures PairAt(s[2..], k, w) <==> PairAt(s, k + 1, w)
  {
    if 2 * k + 4 <= |s| { assert s[2..][2 * k..2 * k + 2] == s[2 * (k + 1)..2 * (k + 1) + 2]; }
  }

  /** The flags are the pairs at the even positions; a last single character does not count. */
  lemma {:induction false} PairsMean(s: string, w: string)
    ensures w in Pairs(s) <==> exists k: nat :: PairAt(s, k, w)
  {
    if |s| >= 2 {
      PairsMean(s[2..], w);
      assert PairAt(s, 0, w) <==> w == s[..2];
      if k: nat :| PairAt(s[2..], k, w) { PairFurther(s, k, w); }
      if k: nat :| PairAt(s, k, w) {
        if k > 0 { PairFurther(s, k - 1, w); }
      }
    }
  }

  lemma EndsIn500(s: string)
    requires |s| >= 4
    ensures s[|s| - 4..] == "-500" <==> s[|s| - 4] == '-' && s[|s| - 3..] == "500"
  {
    assert s[|s| - 4..] == [s[|s| - 4]] + s[|s| - 3..];
  }

  lemma LongLast(last: string)
    requires '-' !in last && |last| >= 4
    ensures last[|last| - 4] != '-'
  {
    assert last[|last| - 4] in last;
  }

  lemma BehindHyphen(front: string, last: string)
    requires '-' !in last
    ensures
      var s := front + "-" + last;
      |s| >= 4 && s[|s| - 4] == '-' && s[|s| - 3..] == "500" <==> last == "500"
  {
    var s := front + "-" + last;
    assert s[|front|] == '-';
    if |last| >= 4 {
      LongLast(last);
    } else if |last| == 3 {
      assert s[|s| - 3..] == last;
    } else if |s| >= 4 {
      assert s[|s| - 3..][2 - |last|] == '-';
    }
  }

  /** What counts is the text behind the last hyphen, or the whole text without one. */
  lemma AdministratorMeans(front: string, last: string)
    requires '-' !in last
    ensures IsBuiltinAdministrator(front + "-" + last) <==> last == "500"
    ensures IsBuiltinAdministrator(last) <==> last == "500"
  {
    var s := front + "-" + last;
    BehindHyphen(front, last);
    if |s| >= 4 { EndsIn500(s); }
    assert s != "500" by { assert s[|front|] == '-'; }
    if |last| >= 4 {
      LongLast(last);
      EndsIn500(last);
    }
  }

  // ----- written access control entries

  function AceFields(a: Ace): (fs: seq<string>)
    ensures |fs| == 6
  {
    [a.kind, a.flags, a.rights, a.objectId, a.inheritId, a.sid]
  }

  predicate Writable(a: Ace) {
    forall k :: 0 <= k < 6 ==> NoSemicolon(AceFields(a)[k])
  }

  function EntryText(a: Ace): string {
    Joined(AceFields(a))
  }

  lemma AceReadsBack(a: Ace)
    requires Writable(a)
    ensures ParseAce(EntryText(a)) == Some(a)
  {
    FieldsReadBack(AceFields(a));
  }

  lemma {:induction false} JoinedIsPlain(fs: seq<string>)
    requires fs != []
    ensures Plain(Joined(fs)) <==> AllPlain(fs)
  {
    if |fs| > 1 {
      JoinedIsPlain(fs[1..]);
      var rest := Joined(fs[1..]);
      PlainJoin(fs[0], ";" + rest);
      PlainJoin(";", rest);
      assert AllPlain(fs) <==> Plain(fs[0]) && AllPlain(fs[1..]) by {
        assert forall k :: 1 <= k < |fs| ==> fs[k] == fs[1..][k - 1];
      }
    }
  }

  lemma PlainJoin(a: string, b: string)
    ensures Plain(a + b) <==> Plain(a) && Plain(b)
  {
    assert forall k :: 0 <= k < |a| ==> (a + b)[k] == a[k];
    assert forall k :: 0 <= k < |b| ==> (a + b)[|a| + k] == b[k];
  }

  function Entries(aces: seq<Ace>): seq<string> {
    seq(|aces|, k requires 0 <= k < |aces| => EntryText(aces[k]))
  }

  /** Reading the entries of written aces gives the aces. */
  lemma ReadingOfWritten(r: Reading, entries: seq<string>, aces: seq<Ace>)
    requires |entries| == |aces| && forall k :: 0 <= k < |aces| ==> r.parse(entries[k]) == Some(aces[k])
    ensures AllGrant(r, entries) <==> forall k :: 0 <= k < |aces| ==> r.grants(aces[k])
    ensures Elements(Principals(r, entries)) == set a | a in aces :: r.principal(a)
  {
    var ps := Principals(r, entries);
    forall p | p in Elements(ps) ensures p in set a | a in aces :: r.principal(a) {
      var k :| 0 <= k < |ps| && ps[k] == p;
      assert aces[k] in aces;
    }
    forall a | a in aces ensures r.principal(a) in Elements(ps) {
      var k :| 0 <= k < |aces| && aces[k] == a;
      assert ps[k] in ps;
    }
  }

  /** A list of written entries is as intended exactly when it is protected, has as many entries as required principals,
      each entry grants, and all principals are present. */
  lemma IntendedOfWritten(flags: string, aces: seq<Ace>, current: string, directory: bool)
    requires forall k :: 0 <= k < |aces| ==> Writable(aces[k])
    ensures Intended(flags, Entries(aces), current, directory) <==>
            && 'P' in flags
            && |aces| == |Required(current)|
            && (forall k :: 0 <= k < |aces| ==> Grants(aces[k], current, directory))
            && (set a | a in aces :: Principal(a, current)) == Required(current)
  {
    var entries, r := Entries(aces), ReadingFor(current, directory);
    forall k | 0 <= k < |aces| ensures r.parse(entries[k]) == Some(aces[k]) { AceReadsBack(aces[k]); }
    ReadingOfWritten(r, entries, aces);
    assert (set a | a in aces :: Principal(a, current)) == (set a | a in aces :: r.principal(a));
  }

  // ----- an accepted list that is not as intended

  function Semicolons(s: string): nat {
    if s == [] then 0 else (if s[0] == ';' then 1 else 0) + Semicolons(s[1..])
  }

  lemma {:induction false} SemicolonsAdd(a: string, b: string)
    ensures Semicolons(a + b) == Semicolons(a) + Semicolons(b)
  {
    if a == [] {
      assert a + b == b;
    } else {
      assert (a + b)[1..] == a[1..] + b;
      SemicolonsAdd(a[1..], b);
    }
  }

  lemma {:induction false} NoneCounted(s: string)
    requires NoSemicolon(s)
    ensures Semicolons(s) == 0
  {
    if s != [] { NoneCounted(s[1..]); }
  }

  /** A text has one field more than semicolons. */
  lemma {:induction false} FieldsCounted(s: string)
    ensures |Fields(s)| == Semicolons(s) + 1
    decreases |s|
  {
    var n := Until(IsSemicolon, s);
    NoneCounted(s[..n]);
    if n == |s| {
      assert s[..n] == s;
    } else {
      FieldsCounted(s[n + 1..]);
      assert s == s[..n] + s[n..] && s[n..][1..] == s[n + 1..];
      SemicolonsAdd(s[..n], s[n..]);
    }
  }

  /** An entry that carries a whole entry in parentheses behind a field of its own has too many fields. */
  lemma NestedIsNoEntry(outer: string, inner: string)
    requires Semicolons(outer) > 0 && |Fields(inner)| == 6
    ensures ParseAce(Nested(outer, inner)).None?
  {
    FieldsCounted(inner);
    FieldsCounted(Nested(outer, inner));
    NestedSemicolons(outer, inner);
  }

  lemma NestedSemicolons(outer: string, inner: string)
    ensures Semicolons(Nested(outer, inner)) == Semicolons(outer) + Semicolons(inner)
  {
    SemicolonsAdd(outer + "(" + inner, ")");
    SemicolonsAdd(outer + "(", inner);
    SemicolonsAdd(outer, "(");
    NoneCounted("(");
    NoneCounted(")");
  }

  function Nested(outer: string, inner: string): string {
    outer + "(" + inner + ")"
  }

  /** Of such an entry only the inner one is judged. */
  lemma NestedJudged(first: string, outer: string, inner: string)
    requires Plain(first) && Plain(outer) && Plain(inner)
    ensures Judged([first, Nested(outer, inner)]) == [first, inner]
  {
    OneGroup(first, "");
    assert "(" + first + ")" + "" == "(" + first + ")";
    NestedGroups(outer, inner);
    assert [first, Nested(outer, inner)][1..] == [Nested(outer, inner)] && [Nested(outer, inner)][1..] == [];
    assert Judged([Nested(outer, inner)]) == [inner];
  }

  lemma NestedGroups(outer: string, inner: string)
    requires Plain(outer) && Plain(inner)
    ensures Groups("(" + Nested(outer, inner) + ")") == [inner]
  {
    var s, rest := "(" + Nested(outer, inner) + ")", "(" + inner + ")" + ")";
    assert s[1..] == outer + rest;
    UntilSkips(IsParen, outer, rest);
    assert s[1 + |outer|] == '(';
    NoGroupHere(s);
    PlainPrefixSkipped(outer, rest);
    OneGroup(inner, ")");
    assert Groups(")") == Groups(")"[1..]) && ")"[1..] == "";
  }

  // ----- the input that fails

  /** A plain full-control entry for a principal. */
  function FullControl(sid: string): Ace {
    Ace("A", "", "FA", "", "", sid)
  }

  lemma FullControlIsPlain(sid: string)
    requires Plain(sid) && NoSemicolon(sid)
    ensures Writable(FullControl(sid)) && Plain(EntryText(FullControl(sid)))
  {
    JoinedIsPlain(AceFields(FullControl(sid)));
  }

  /** The current user is neither LocalSystem nor spelled like its alias. */
  predicate OrdinaryUser(current: string) {
    && Plain(current) && NoSemicolon(current)
    && Upper(current) != LOCAL_SYSTEM && Upper(current) != "SY"
  }

  lemma FullControlGrants(sid: string, current: string)
    requires Upper(sid) == "SY" || sid == current
    ensures Grants(FullControl(sid), current, false)
  {
    assert Upper("FA") == "FA";
    assert !Contains("", "ID");
  }

  lemma TwoRead(r: Reading, first: string, second: string, a: Ace, b: Ace)
    requires r.parse(first) == Some(a) && r.parse(second) == Some(b) && r.grants(a) && r.grants(b)
    ensures AllGrant(r, [first, second]) && Principals(r, [first, second]) == [r.principal(a), r.principal(b)]
  {
  }

  lemma FullControlRead(sid: string, current: string)
    requires Plain(sid) && NoSemicolon(sid) && (Upper(sid) == "SY" || sid == current)
    ensures
      var r, a := ReadingFor(current, false), FullControl(sid);
      r.parse(EntryText(a)) == Some(a) && r.grants(a) && r.principal(a) == Principal(a, current)
  {
    FullControlIsPlain(sid);
    AceReadsBack(FullControl(sid));
    FullControlGrants(sid, current);
  }

  lemma PrincipalsOfTwo(current: string)
    requires OrdinaryUser(current)
    ensures Principal(FullControl("SY"), current) == LOCAL_SYSTEM
    ensures Principal(FullControl(current), current) == Upper(current)
    ensures Elements([LOCAL_SYSTEM, Upper(current)]) == Required(current) && |Required(current)| == 2
  {
    assert Upper("SY") == "SY";
    assert Elements([LOCAL_SYSTEM, Upper(current)]) == {LOCAL_SYSTEM, Upper(current)};
  }

  /** A list of one entry each for LocalSystem and the user. */
  function UserList(current: string): seq<string> {
    [EntryText(FullControl("SY")), EntryText(FullControl(current))]
  }

  /** The alias of the built-in administrator stands for the user exactly when the user is one. */
  lemma AdministratorAlias(current: string)
    requires OrdinaryUser(current) && Upper(current) != "LA"
    ensures Grants(FullControl("LA"), current, false) <==> IsBuiltinAdministrator(Upper(current))
    ensures Principal(FullControl("LA"), current) == Upper(current)
  {
    assert Upper("LA") == "LA" && Upper("FA") == "FA";
    assert !Contains("", "ID");
    assert "LA" != "SY" && |LOCAL_SYSTEM| == 8;
  }

  lemma TwoIntended(a: Ace, b: Ace, current: string)
    requires Writable(a) && Writable(b) && Grants(a, current, false) && |Required(current)| == 2
    requires Principal(a, current) == LOCAL_SYSTEM && Principal(b, current) == Upper(current)
    ensures Intended("P", Entries([a, b]), current, false) <==> Grants(b, current, false)
  {
    var aces := [a, b];
    assert aces[0] == a && aces[1] == b;
    PrincipalsAre(aces, current);
    IntendedOfWritten("P", aces, current, false);
  }

  lemma PrincipalsAre(aces: seq<Ace>, current: string)
    requires |aces| == 2 && Principal(aces[0], current) == LOCAL_SYSTEM && Principal(aces[1], current) == Upper(current)
    ensures (set x | x in aces :: Principal(x, current)) == Required(current)
  {
    assert aces[0] in aces && aces[1] in aces;
  }

  /** So a list with the two aliases is as intended for administrators only. */
  lemma AliasListIntended(current: string)
    requires OrdinaryUser(current) && Upper(current) != "LA"
    ensures Intended("P", Entries([FullControl("SY"), FullControl("LA")]), current, false) <==>
            IsBuiltinAdministrator(Upper(current))
  {
    assert Upper("SY") == "SY" && Plain("SY") && NoSemicolon("SY") && Plain("LA") && NoSemicolon("LA");
    FullControlIsPlain("SY");
    FullControlIsPlain("LA");
    FullControlGrants("SY", current);
    PrincipalsOfTwo(current);
    AdministratorAlias(current);
    TwoIntended(FullControl("SY"), FullControl("LA"), current);
  }

  /** The same list with the user's entry in parentheses behind other text. */
  function NestedList(current: string, outer: string): seq<string> {
    [EntryText(FullControl("SY")), Nested(outer, EntryText(FullControl(current)))]
  }

  lemma UserListIsIntended(current: string)
    requires OrdinaryUser(current)
    ensures Intended("P", UserList(current), current, false)
  {
    assert Upper("SY") == "SY" && Plain("SY") && NoSemicolon("SY");
    FullControlRead("SY", current);
    FullControlRead(current, current);
    PrincipalsOfTwo(current);
    TwoRead(ReadingFor(current, false), EntryText(FullControl("SY")), EntryText(FullControl(current)),
            FullControl("SY"), FullControl(current));
    UserListIsRight(current, UserList(current));
  }

  lemma UserListIsRight(current: string, entries: seq<string>)
    requires |entries| == 2 && AllGrant(ReadingFor(current, false), entries) && |Required(current)| == 2
    requires Elements(Principals(ReadingFor(current, false), entries)) == Required(current)
    ensures Intended("P", entries, current, false)
  {
  }

  lemma NestedListJudged(current: string, outer: string)
    requires OrdinaryUser(current) && Plain(outer)
    ensures Judged(NestedList(current, outer)) == UserList(current)
  {
    assert Plain("SY") && NoSemicolon("SY");
    FullControlIsPlain("SY");
    FullControlIsPlain(current);
    NestedJudged(EntryText(FullControl("SY")), outer, EntryText(FullControl(current)));
  }

  lemma UnreadableIsNotIntended(r: Reading, entries: seq<string>)
    requires |entries| == 2 && r.parse(entries[1]).None?
    ensures !AllGrant(r, entries)
  {
    assert 0 <= 1 < |entries|;
  }

  lemma NestedListIsNotIntended(current: string, outer: string)
    requires OrdinaryUser(current) && Semicolons(outer) > 0
    ensures !Intended("P", NestedList(current, outer), current, false)
  {
    FullControlIsPlain(current);
    FieldsReadBack(AceFields(FullControl(current)));
    NestedIsNoEntry(outer, EntryText(FullControl(current)));
    UnreadableIsNotIntended(ReadingFor(current, false), NestedList(current, outer));
  }

  /**
   For every ordinary user: an entry with a whole entry for the user in parentheses is accepted in
   place of the user's own, whatever fields stand in front of the parentheses, although the list is
   not as intended.
   */
  lemma NestedEntryAccepted(current: string, outer: string)
    requires OrdinaryUser(current) && Plain(outer) && Semicolons(outer) > 0
    ensures Private(WriteDacl("P", NestedList(current, outer)), current, false)
    ensures !Intended("P", NestedList(current, outer), current, false)
  {
    UserListIsIntended(current);
    NestedListJudged(current, outer);
    AcceptedAsJudged(NestedList(current, outer), UserList(current), current);
    NestedListIsNotIntended(current, outer);
  }

  lemma AcceptedAsJudged(entries: seq<string>, judged: seq<string>, current: string)
    requires Judged(entries) == judged && Intended("P", judged, current, false)
    ensures Private(WriteDacl("P", entries), current, false)
  {
    WrittenDaclJudged("P", entries, current, false);
  }

  const USER := "S-1-5-21-1"
  const EVERYONE := "XA;;FA;;;WD;"

  lemma ExampleIsOrdinary()
    ensures OrdinaryUser(USER)
  {
    assert |Upper(USER)| == 10 && |LOCAL_SYSTEM| == 8;
  }

  lemma ExampleHasFields()
    ensures Plain(EVERYONE) && Semicolons(EVERYONE) > 0
  {
    assert EVERYONE[1..][0] == 'A' && EVERYONE[1..][1..][0] == ';';
    assert Semicolons(EVERYONE[1..][1..]) > 0 && Semicolons(EVERYONE[1..]) > 0;
  }

  /** The input that fails: a conditional entry for everyone is passed over. */
  lemma ConditionalEntryAccepted()
    ensures Private(WriteDacl("P", NestedList(USER, EVERYONE)), USER, false)
    ensures !Intended("P", NestedList(USER, EVERYONE), USER, false)
  {
    ExampleIsOrdinary();
    ExampleHasFields();
    NestedEntryAccepted(USER, EVERYONE);
  }
}

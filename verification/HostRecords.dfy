/** The host record of a dashboard in the shared DNS file, line by line. */
module HostRecords {
  import opened AsciiText
  import opened Options
  import opened MarkerBlocks

  // ----- reading and writing text

  /** Reading a text file turns every line ending into a line feed. */
  function Translate(s: string): string
    decreases |s|
  {
    if s == [] then []
    else if s[0] == '\r' then ['\n'] + Translate(if |s| > 1 && s[1] == '\n' then s[2..] else s[1..])
    else [s[0]] + Translate(s[1..])
  }

  lemma {:induction false} TranslateIs(s: string)
    ensures '\r' !in Translate(s)
    ensures Translate(s) == s <==> '\r' !in s
    decreases |s|
  {
    if s != [] {
      TranslateIs(if s[0] == '\r' && |s| > 1 && s[1] == '\n' then s[2..] else s[1..]);
      assert s == [s[0]] + s[1..];
    }
  }

  /** The text with another line ending in place of every line feed. */
  function WithEnding(s: string, ending: string): string {
    if s == [] then [] else (if s[0] == '\n' then ending else [s[0]]) + WithEnding(s[1..], ending)
  }

  lemma {:induction false} EndingHead(s: string, ending: string)
    requires '\r' !in s && (ending == "\r" || ending == "\r\n")
    ensures s != [] ==> WithEnding(s, ending) != [] && WithEnding(s, ending)[0] != '\n'
  {
  }

  /** The Windows form of a text without carriage returns is read as that text. */
  lemma {:induction false} WindowsFormRead(s: string)
    requires '\r' !in s
    ensures Translate(WithEnding(s, "\r\n")) == s
  {
    if s != [] {
      WindowsFormRead(s[1..]);
      var rest := WithEnding(s[1..], "\r\n");
      var all := WithEnding(s, "\r\n");
      assert s == [s[0]] + s[1..];
      if s[0] == '\n' {
        assert all == "\r\n" + rest && all[2..] == rest && all[1] == '\n';
      } else {
        assert all[1..] == rest;
      }
    }
  }

  /** So is its form with lone carriage returns. */
  lemma {:induction false} CarriageFormRead(s: string)
    requires '\r' !in s
    ensures Translate(WithEnding(s, "\r")) == s
  {
    if s != [] {
      CarriageFormRead(s[1..]);
      EndingHead(s[1..], "\r");
      assert s == [s[0]] + s[1..];
      assert WithEnding(s, "\r")[1..] == WithEnding(s[1..], "\r");
    }
  }

  predicate IsBreak(c: char) {
    '\n' <= c <= '\r' || 28 as char <= c <= 30 as char || c == '\U{0085}' || c == '\U{2028}' || c == '\U{2029}'
  }

  /** The code points at which Python splits lines. */
  lemma BreaksAre(c: char)
    ensures IsBreak(c) <==> c as int in {10, 11, 12, 13, 28, 29, 30, 0x85, 0x2028, 0x2029}
  {
  }

  predicate IsLine(s: string) {
    forall k :: 0 <= k < |s| ==> !IsBreak(s[k])
  }

  function FirstBreak(s: string): (n: nat)
    ensures n <= |s| && (n < |s| ==> IsBreak(s[n])) && forall k :: 0 <= k < n ==> !IsBreak(s[k])
  {
    if s == [] || IsBreak(s[0]) then 0 else 1 + FirstBreak(s[1..])
  }

  /** The lines of a text without carriage returns. */
  function Lines(s: string): seq<string>
    decreases |s|
  {
    var n := FirstBreak(s);
    if s == [] then [] else if n == |s| then [s] else [s[..n]] + Lines(s[n + 1..])
  }

  /** Every line, each followed by a line feed. */
  function Unlines(lines: seq<string>): string {
    if lines == [] then [] else lines[0] + "\n" + Unlines(lines[1..])
  }

  lemma {:induction false} LinesAreLines(s: string)
    ensures forall k :: 0 <= k < |Lines(s)| ==> IsLine(Lines(s)[k])
    decreases |s|
  {
    var n := FirstBreak(s);
    if s != [] && n < |s| { LinesAreLines(s[n + 1..]); }
  }

  lemma OneLine(line: string, rest: string)
    requires IsLine(line)
    ensures Lines(line + "\n" + rest) == [line] + Lines(rest)
  {
    var text, n := line + "\n" + rest, |line|;
    assert text[n] == '\n' && forall k :: 0 <= k < n ==> text[k] == line[k];
    assert FirstBreak(text) == n;
    assert text[..n] == line && text[n + 1..] == rest;
  }

  /** What is written line by line is read back as the same lines. */
  lemma {:induction false} LinesReadBack(lines: seq<string>)
    requires forall k :: 0 <= k < |lines| ==> IsLine(lines[k])
    ensures Lines(Unlines(lines)) == lines
  {
    if lines != [] {
      LinesReadBack(lines[1..]);
      OneLine(lines[0], Unlines(lines[1..]));
    }
  }

  // ----- the record

  /** A host name and the line that the deployment wants for it. */
  datatype Host = Host(name: string, record: string)

  predicate Mentions(line: string, name: string) {
    exists i :: 0 <= i <= |line| - |name| && Occurs(line, name, i)
  }

  predicate IsComment(line: string) {
    var s := TrimStart(line); s != [] && s[0] == '#'
  }

  /** A line that is in force for the name. */
  predicate Active(line: string, name: string) {
    Mentions(line, name) && !IsComment(line)
  }

  /** A line is in force for a name exactly when the name stands somewhere in it and its first character that is not
      white space is no `#`. */
  lemma ActiveMeans(space: string, rest: string, name: string)
    requires (forall k :: 0 <= k < |space| ==> IsSpace(space[k])) && rest != "" && !IsSpace(rest[0])
    ensures Active(space + rest, name) <==> rest[0] != '#' && exists a, b :: space + rest == a + name + b
  {
    LeadingSpace(space, rest);
    MentionsMeans(space + rest, name);
  }

  lemma {:induction false} LeadingSpace(space: string, rest: string)
    requires (forall k :: 0 <= k < |space| ==> IsSpace(space[k])) && rest != "" && !IsSpace(rest[0])
    ensures TrimStart(space + rest) == rest
  {
    if space == "" {
      assert space + rest == rest;
    } else {
      assert (space + rest)[1..] == space[1..] + rest;
      LeadingSpace(space[1..], rest);
    }
  }

  lemma MentionsMeans(line: string, name: string)
    ensures Mentions(line, name) <==> exists a, b :: line == a + name + b
  {
    if Mentions(line, name) {
      var i :| 0 <= i <= |line| - |name| && Occurs(line, name, i);
      assert line == line[..i] + name + line[i + |name|..];
    }
    if a, b :| line == a + name + b {
      assert line[|a|..|a| + |name|] == name;
      assert Occurs(line, name, |a|);
    }
  }

  /** The record is a line of its own that is in force for its name. */
  predicate IsHost(h: Host) {
    IsLine(h.record) && Active(h.record, h.name)
  }

  predicate Conflict(lines: seq<string>, h: Host) {
    (exists k :: 0 <= k < |lines| && Active(lines[k], h.name)) && h.record !in lines
  }

  /** The update of the lines; a conflicting entry is an error. */
  function Update(lines: seq<string>, h: Host): Option<seq<string>> {
    if Conflict(lines, h) then None else if h.record in lines then Some(lines) else Some(lines + [h.record])
  }

  /** The update of the file. */
  function UpdateText(text: string, h: Host): Option<string> {
    match Update(Lines(text), h)
    case None => None
    case Some(lines) => Some(Unlines(lines))
  }

  /** The loop that collects the matching lines, and the update. */
  method UpdateLines(lines: seq<string>, h: Host) returns (r: Option<seq<string>>)
    requires IsHost(h)
    ensures r == Update(lines, h)
  {
    var matches := [];
    for k := 0 to |lines|
      invariant forall line :: line in matches <==> line in lines[..k] && Active(line, h.name)
    {
      assert lines[..k + 1] == lines[..k] + [lines[k]];
      if Active(lines[k], h.name) {
        matches := matches + [lines[k]];
      }
    }
    assert lines[..|lines|] == lines;
    assert matches != [] ==> matches[0] in matches;
    if matches != [] && h.record !in matches {
      return None;
    }
    if h.record !in lines {
      return Some(lines + [h.record]);
    }
    return Some(lines);
  }

  /** After an update the record is in force, all lines are kept in order, and a second update changes nothing. */
  lemma UpdateSettles(text: string, h: Host)
    requires IsHost(h) && UpdateText(text, h).Some?
    ensures var u := UpdateText(text, h).value;
      && Lines(text) <= Lines(u) && h.record in Lines(u)
      && UpdateText(u, h) == Some(u)
  {
    var lines := Update(Lines(text), h).value;
    LinesAreLines(text);
    LinesReadBack(lines);
    assert h.record in lines;
  }

  /** The record of one host is no conflict for another. */
  lemma OtherHostUnaffected(lines: seq<string>, g: Host, h: Host)
    requires Update(lines, g).Some? && !Mentions(g.record, h.name) && IsHost(h)
    ensures Conflict(Update(lines, g).value, h) <==> Conflict(lines, h)
  {
    var updated := Update(lines, g).value;
    assert h.record != g.record;
    if g.record !in lines {
      assert updated == lines + [g.record];
      if k :| 0 <= k < |lines| && Active(lines[k], h.name) { assert updated[k] == lines[k]; }
    }
  }

  /** Updating for one host neither causes nor removes a conflict for another. */
  lemma NoMutualConflict(text: string, g: Host, h: Host)
    requires UpdateText(text, g).Some? && !Mentions(g.record, h.name) && IsHost(g) && IsHost(h)
    ensures UpdateText(UpdateText(text, g).value, h).Some? <==> UpdateText(text, h).Some?
  {
    OtherHostUnaffected(Lines(text), g, h);
    LinesAreLines(text);
    LinesReadBack(Update(Lines(text), g).value);
  }
}

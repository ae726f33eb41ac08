/**
 What deployments do to text they do not own: reading a file as text and writing it back replaces
 line endings, and these are the exact conditions under which the files' own text survives.
 */
module OutsideText {
  import opened AsciiText
  import opened MarkerBlocks
  import opened HostRecords
  import opened Dashboards
  import opened DashboardDeploy

  // ----- the web server's configuration

  lemma {:induction false} TranslateCopies(p: string, q: string)
    requires '\r' !in p
    ensures Translate(p + q) == p + Translate(q)
  {
    if p == [] {
      assert p + q == q;
    } else {
      TranslateCopies(p[1..], q);
      TranslateOne(p[0], p[1..] + q);
      assert p + q == [p[0]] + (p[1..] + q) && p + Translate(q) == [p[0]] + (p[1..] + Translate(q));
    }
  }

  lemma TranslateOne(c: char, rest: string)
    requires c != '\r'
    ensures Translate([c] + rest) == [c] + Translate(rest)
  {
    assert ([c] + rest)[1..] == rest;
  }

  predicate IsBlank(s: string) {
    forall k :: 0 <= k < |s| ==> IsSpace(s[k])
  }

  lemma {:induction false} BlankStaysBlank(w: string)
    requires IsBlank(w)
    ensures IsBlank(Translate(w))
    decreases |w|
  {
    if w != [] {
      BlankStaysBlank(if w[0] == '\r' && |w| > 1 && w[1] == '\n' then w[2..] else w[1..]);
    }
  }

  lemma {:induction false} TrimAfter(p: string, w: string)
    requires IsBlank(w) && (p != [] ==> !IsSpace(p[|p| - 1]))
    ensures TrimEnd(p + w) == p
  {
    if w == [] {
      assert p + w == p;
    } else {
      TrimAfter(p, w[..|w| - 1]);
      assert (p + w)[..|p + w| - 1] == p + w[..|w| - 1];
    }
  }

  lemma ReadThenTrimmed(p: string, w: string)
    requires '\r' !in p && IsBlank(w) && (p != [] ==> !IsSpace(p[|p| - 1]))
    ensures TrimEnd(Translate(p + w)) == p
  {
    TranslateCopies(p, w);
    BlankStaysBlank(w);
    TrimAfter(p, Translate(w));
  }

  lemma BlankTail(file: string) returns (w: string)
    ensures file == TrimEnd(file) + w && IsBlank(w)
  {
    TrimEndIs(file);
    w := file[|TrimEnd(file)|..];
    assert forall k :: 0 <= k < |w| ==> w[k] == file[|TrimEnd(file)| + k];
  }

  /** Text without carriage returns before its trailing white space is read as it is. */
  lemma TrimmedIsRead(file: string)
    requires '\r' !in TrimEnd(file)
    ensures TrimEnd(Translate(file)) == TrimEnd(file)
  {
    TrimEndIs(file);
    var w := BlankTail(file);
    ReadThenTrimmed(TrimEnd(file), w);
  }

  lemma DeployedText(file: string, done: seq<Dashboard>)
    requires done != [] && forall e :: Free(Translate(file), BlockOf(e))
    ensures '\r' !in AfterDeployments(file, done)
    ensures TrimEnd(Translate(file)) <= AfterDeployments(file, done)
  {
    BlocksAreFree(Translate(file), done);
    TranslateIs(file);
    DeployedHasNoReturn(Translate(file), Blocks(done));
    RenderExtends(TrimEnd(Translate(file)), Firsts(Blocks(done)));
  }

  /**
   The text outside the blocks, up to its trailing white space, is unchanged by deployments if and
   only if it has no carriage return.
   */
  lemma OutsideTextKeptIff(file: string, done: seq<Dashboard>)
    requires done != [] && forall e :: Free(Translate(file), BlockOf(e))
    ensures TrimEnd(file) <= AfterDeployments(file, done) <==> '\r' !in TrimEnd(file)
  {
    DeployedText(file, done);
    if '\r' !in TrimEnd(file) { TrimmedIsRead(file); }
  }

  /** A configuration with a Windows line ending, as the shared file may have. */
  const WINDOWS := "a\r\nb"

  /** The input that fails: one deployment changes the text of others. */
  lemma DeploymentChangesWindowsText(d: Dashboard)
    ensures forall e :: Free(Translate(WINDOWS), BlockOf(e))
    ensures !(TrimEnd(WINDOWS) <= AfterDeployments(WINDOWS, [d]))
  {
    assert WINDOWS[3..] == "b" && Translate("b") == "b";
    assert WINDOWS[1..][2..] == "b" && WINDOWS[1..][0] == '\r' && WINDOWS[1..][1] == '\n';
    assert Translate(WINDOWS[1..]) == "\nb";
    assert Translate(WINDOWS) == "a\nb";
    forall e ensures Free(Translate(WINDOWS), BlockOf(e)) {
      BlockIsTarget(e);
      AbsentWithoutHash("a\nb", BlockOf(e).begin);
      AbsentWithoutHash("a\nb", BlockOf(e).end);
    }
    assert TrimEnd(WINDOWS) == WINDOWS && WINDOWS[1] == '\r';
    OutsideTextKeptIff(WINDOWS, [d]);
  }

  // ----- the DNS file

  /** The only line breaks are line feeds. */
  predicate OnlyLineFeeds(s: string) {
    forall k :: 0 <= k < |s| && IsBreak(s[k]) ==> s[k] == '\n'
  }

  /** Splitting such a text into lines and writing them gives it back, with a line feed at its end. */
  lemma {:induction false} LinesWriteBack(s: string)
    requires OnlyLineFeeds(s)
    ensures s <= Unlines(Lines(s))
    decreases |s|
  {
    var n := FirstBreak(s);
    if s != [] && n == |s| {
      assert Unlines([s]) == s + "\n" + Unlines([s][1..]);
    } else if s != [] {
      LinesWriteBack(s[n + 1..]);
      OneMoreLine(s[..n], Lines(s[n + 1..]));
      assert s == s[..n] + "\n" + s[n + 1..];
    }
  }

  lemma OneMoreLine(line: string, lines: seq<string>)
    ensures Unlines([line] + lines) == line + "\n" + Unlines(lines)
  {
    assert ([line] + lines)[1..] == lines;
  }

  lemma {:induction false} UnlinesExtends(a: seq<string>, b: seq<string>)
    requires a <= b
    ensures Unlines(a) <= Unlines(b)
  {
    if a != [] { UnlinesExtends(a[1..], b[1..]); }
  }

  lemma {:induction false} UnlinesHasOnlyLineFeeds(lines: seq<string>)
    requires forall k :: 0 <= k < |lines| ==> IsLine(lines[k])
    ensures OnlyLineFeeds(Unlines(lines))
  {
    if lines != [] { UnlinesHasOnlyLineFeeds(lines[1..]); }
  }

  /** The text of the DNS file is kept in front of the new records if and only if its only line breaks are line
      feeds. */
  lemma DnsTextKeptIff(file: string, done: seq<Dashboard>)
    requires done != []
    ensures file <= DnsAfterDeployments(file, done) <==> OnlyLineFeeds(file)
  {
    var lines := Lines(Translate(file));
    LinesAreLines(Translate(file));
    RecordsAreLines(lines, done);
    UnlinesHasOnlyLineFeeds(WithRecords(lines, done));
    if OnlyLineFeeds(file) {
      TranslateIs(file);
      LinesWriteBack(file);
      WithRecordsKeeps(lines, done);
      UnlinesExtends(lines, WithRecords(lines, done));
    }
  }
}

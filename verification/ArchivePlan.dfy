/**
 The canonical content of a source artifact, apart from its concrete names: sources packed under
 new names, fixed metadata files, and a RECORD file with one row per member.
 */
module ArchivePlan {
  import opened Options
  import opened ByteText
  import opened Counting
  import opened NameOrder
  import Csv

  datatype Member = Member(name: string, content: Bytes)
  type Archive = seq<Member>
  type FileMap = map<string, Bytes>

  /** Hashing, encoding and text conversion, taken as given. */
  datatype Library = Library(
    sha: Bytes -> Bytes,
    base64: Bytes -> string,
    encode: string -> Bytes,
    decode: Bytes -> Option<string>)

  ghost predicate Lawful(lib: Library) {
    && (forall s :: lib.decode(lib.encode(s)) == Some(s))
    && (forall b :: Csv.NoReturn(lib.base64(b)))
  }

  /**
   `listing` is the order in which the sources are copied, `pack` their name in the archive, `fixed`
   the metadata files and `record` the name of the RECORD file.
   */
  datatype Plan = Plan(listing: seq<string>, sources: FileMap, pack: string -> string, fixed: FileMap, record: string)

  ghost predicate WellFormed(p: Plan) {
    && Elements(p.listing) == p.sources.Keys
    && p.record !in p.fixed
    && (forall n :: n in p.sources ==> p.pack(n) !in p.fixed && p.pack(n) != p.record)
    && (forall n :: n in p.sources ==> FileName(p.pack(n)))
    && (forall n :: n in p.fixed ==> FileName(n))
    && FileName(p.record)
  }

  /** A name of a file, not of a directory, that fits on a RECORD line. */
  predicate FileName(n: string) {
    n != "" && n[|n| - 1] != '/' && Csv.NoReturn(n)
  }

  function PackNames(p: Plan): set<string> {
    set n | n in p.sources :: p.pack(n)
  }

  // ----- archives as dictionaries

  predicate IsDirectory(n: string) {
    n != "" && n[|n| - 1] == '/'
  }

  /** The dictionary of an archive's files: a repeated name keeps its last content. */
  function FilesOf(a: Archive): FileMap {
    if a == [] then map[] else
      var last := a[|a| - 1];
      if IsDirectory(last.name) then FilesOf(a[..|a| - 1]) else FilesOf(a[..|a| - 1])[last.name := last.content]
  }

  ghost function ArchiveOf(files: FileMap): (a: Archive)
    ensures |a| == |Sorted(files.Keys)|
  {
    var names := Sorted(files.Keys);
    seq(|names|, k requires 0 <= k < |names| => assert names[k] in Elements(names); Member(names[k], files[names[k]]))
  }

  lemma {:induction false} FilesOfListed(a: Archive, files: FileMap)
    requires Distinct(Names(a))
    requires forall k :: 0 <= k < |a| ==>
               a[k].name in files && files[a[k].name] == a[k].content && !IsDirectory(a[k].name)
    ensures FilesOf(a) == map n | n in files && n in Elements(Names(a)) :: files[n]
  {
    if a != [] {
      var front, last := a[..|a| - 1], a[|a| - 1];
      assert Names(front) == Names(a)[..|a| - 1];
      FilesOfListed(front, files);
      assert Names(a) == Names(front) + [last.name];
    }
  }

  function Names(a: Archive): seq<string> {
    seq(|a|, k requires 0 <= k < |a| => a[k].name)
  }

  /** Writing a dictionary of files in name order and reading the archive gives the dictionary back. */
  lemma FilesOfArchive(files: FileMap)
    requires forall n :: n in files ==> !IsDirectory(n)
    ensures FilesOf(ArchiveOf(files)) == files && Names(ArchiveOf(files)) == Sorted(files.Keys)
  {
    var names, a := Sorted(files.Keys), ArchiveOf(files);
    assert Names(a) == names;
    AscendingIsDistinct(names);
    forall k | 0 <= k < |a| ensures a[k].name in files && files[a[k].name] == a[k].content && !IsDirectory(a[k].name) {
      assert names[k] in Elements(names);
    }
    FilesOfListed(a, files);
    assert (map n | n in files && n in Elements(Names(a)) :: files[n]) == files;
  }

  // ----- the canonical content

  /** The packed sources: where two sources share a name, the later one in the listing wins. */
  function Packed(listing: seq<string>, sources: FileMap, pack: string -> string): FileMap
    requires forall n :: n in listing ==> n in sources
  {
    if listing == [] then map[] else
      var last := listing[|listing| - 1];
      Packed(listing[..|listing| - 1], sources, pack)[pack(last) := sources[last]]
  }

  lemma {:induction false} PackedHolds(listing: seq<string>, sources: FileMap, pack: string -> string)
    requires forall n :: n in listing ==> n in sources
    ensures Packed(listing, sources, pack).Keys == set n | n in listing :: pack(n)
    ensures forall m :: m in Packed(listing, sources, pack) ==>
      exists n :: n in listing && pack(n) == m && sources[n] == Packed(listing, sources, pack)[m]
  {
    if listing != [] {
      var front, last := listing[..|listing| - 1], listing[|listing| - 1];
      assert listing == front + [last];
      PackedHolds(front, sources, pack);
      var packed, before := Packed(listing, sources, pack), Packed(front, sources, pack);
      forall m | m in packed ensures exists n :: n in listing && pack(n) == m && sources[n] == packed[m] {
        if m == pack(last) {
          assert last in listing;
        } else {
          var n :| n in front && pack(n) == m && sources[n] == before[m];
          assert n in listing;
        }
      }
    }
  }

  /** Everything but the RECORD file. */
  function Body(p: Plan): FileMap
    requires forall n :: n in p.listing ==> n in p.sources
  {
    Packed(p.listing, p.sources, p.pack) + p.fixed
  }

  function Decimal(n: nat): string {
    if n < 10 then [('0' as int + n) as char] else Decimal(n / 10) + [('0' as int + n % 10) as char]
  }

  lemma {:induction false} DecimalHasNoReturn(n: nat)
    ensures Csv.NoReturn(Decimal(n))
  {
    if n >= 10 { DecimalHasNoReturn(n / 10); }
  }

  /** The number that decimal digits stand for. */
  function Val(s: string): nat
    requires AllDigits(s)
  {
    if s == "" then 0 else 10 * Val(s[..|s| - 1]) + (s[|s| - 1] as int - '0' as int)
  }

  predicate AllDigits(s: string) {
    forall k :: 0 <= k < |s| ==> '0' <= s[k] <= '9'
  }

  /** One digit, or several without a leading zero. */
  predicate IsNumeral(s: string) {
    AllDigits(s) && s != "" && (|s| > 1 ==> s[0] != '0')
  }

  /** The decimal form of a number is a numeral and reads as that number. */
  lemma {:induction false} DecimalReads(n: nat)
    ensures IsNumeral(Decimal(n)) && Val(Decimal(n)) == n
    ensures Decimal(n)[0] == '0' ==> n == 0
  {
    if n >= 10 {
      DecimalReads(n / 10);
      var front, s := Decimal(n / 10), Decimal(n);
      assert s[..|s| - 1] == front && s[0] == front[0];
    }
  }

  /** There is no other numeral for it. */
  lemma {:induction false} NumeralIsDecimal(s: string)
    requires IsNumeral(s)
    ensures Decimal(Val(s)) == s
    ensures s[0] != '0' ==> Val(s) > 0
  {
    var n := |s| - 1;
    if n == 0 {
      assert s == [s[0]] && Val(s[..0]) == 0;
    } else {
      assert forall k :: 0 <= k < n ==> s[..n][k] == s[k];
      NumeralIsDecimal(s[..n]);
      assert Val(s) / 10 == Val(s[..n]) && s == s[..n] + [s[n]];
    }
  }

  /** The text without its trailing padding. */
  function Unpadded(s: string): string {
    if s != "" && s[|s| - 1] == '=' then Unpadded(s[..|s| - 1]) else s
  }

  lemma {:induction false} UnpaddedIs(s: string)
    ensures Unpadded(s) <= s && (Unpadded(s) != "" ==> Unpadded(s)[|Unpadded(s)| - 1] != '=')
    ensures forall k :: |Unpadded(s)| <= k < |s| ==> s[k] == '='
  {
    if s != "" && s[|s| - 1] == '=' { UnpaddedIs(s[..|s| - 1]); }
  }

  function DigestField(lib: Library, content: Bytes): string {
    "sha256=" + Unpadded(lib.base64(lib.sha(content)))
  }

  /** What a RECORD row says about a content: digest and size. */
  type Description = Bytes -> (string, string)

  function Describe(lib: Library): Description {
    (b: Bytes) => (DigestField(lib, b), Decimal(|b|))
  }

  function FileRows(d: Description, names: seq<string>, files: FileMap): (rows: seq<Csv.Row>)
    requires forall k :: 0 <= k < |names| ==> names[k] in files
    ensures |rows| == |names| && forall k :: 0 <= k < |rows| ==> |rows[k]| == 3
  {
    seq(|names|, k requires 0 <= k < |names| => [names[k], d(files[names[k]]).0, d(files[names[k]]).1])
  }

  /** One row per name of the list, then the blank row of the RECORD file itself. */
  function RecordRows(d: Description, names: seq<string>, files: FileMap, record: string): (rows: seq<Csv.Row>)
    requires forall k :: 0 <= k < |names| ==> names[k] in files
    ensures |rows| == |names| + 1 && forall k :: 0 <= k < |rows| ==> |rows[k]| == 3
  {
    FileRows(d, names, files) + [[record, "", ""]]
  }

  ghost function RecordContent(lib: Library, body: FileMap, record: string): Bytes {
    var names := Sorted(body.Keys);
    assert forall k :: 0 <= k < |names| ==> names[k] in Elements(names);
    lib.encode(Csv.WriteRows(RecordRows(Describe(lib), names, body, record)))
  }

  ghost function CanonicalFiles(lib: Library, p: Plan): FileMap
    requires WellFormed(p)
  {
    InListing(p);
    Body(p)[p.record := RecordContent(lib, Body(p), p.record)]
  }

  ghost function CanonicalArchive(lib: Library, p: Plan): Archive
    requires WellFormed(p)
  {
    ArchiveOf(CanonicalFiles(lib, p))
  }

  lemma InListing(p: Plan)
    requires WellFormed(p)
    ensures forall n :: n in p.listing <==> n in p.sources
  {
    forall n ensures n in p.listing <==> n in p.sources { assert n in Elements(p.listing) <==> n in p.listing; }
  }

  lemma BodyNames(p: Plan)
    requires WellFormed(p)
    ensures (forall n :: n in p.listing ==> n in p.sources) && Body(p).Keys == PackNames(p) + p.fixed.Keys
    ensures p.record !in Body(p)
    ensures forall n :: n in Body(p) ==> FileName(n)
  {
    InListing(p);
    PackedHolds(p.listing, p.sources, p.pack);
    assert (set n | n in p.listing :: p.pack(n)) == PackNames(p);
  }

  /** The canonical archive holds exactly the packed names, the fixed names and RECORD. */
  lemma CanonicalHolds(lib: Library, p: Plan)
    requires WellFormed(p)
    ensures CanonicalFiles(lib, p).Keys == PackNames(p) + p.fixed.Keys + {p.record}
    ensures FilesOf(CanonicalArchive(lib, p)) == CanonicalFiles(lib, p)
  {
    BodyNames(p);
    var files := CanonicalFiles(lib, p);
    assert files.Keys == Body(p).Keys + {p.record};
    forall n | n in files ensures !IsDirectory(n) { assert FileName(n); }
    FilesOfArchive(files);
  }

  // ----- the RECORD file

  /** Rows read as a table from names to digest and size. */
  function Table(rows: seq<Csv.Row>): map<string, (string, string)>
    requires forall k :: 0 <= k < |rows| ==> |rows[k]| == 3
  {
    if rows == [] then map[] else
      var last := rows[|rows| - 1];
      Table(rows[..|rows| - 1])[last[0] := (last[1], last[2])]
  }

  /** The table has one row per file, each with the file's description, and a blank one for RECORD. */
  ghost predicate TableFits(d: Description, table: map<string, (string, string)>, files: FileMap, record: string) {
    && record in files
    && table.Keys == files.Keys
    && (forall n :: n in files && n != record ==> table[n] == d(files[n]))
    && table[record] == ("", "")
  }

  /** What the verifier demands of the rows: three fields each, no name twice, and a fitting table. */
  ghost predicate RowsFit(d: Description, rows: seq<Csv.Row>, files: FileMap, record: string) {
    && (forall k :: 0 <= k < |rows| ==> |rows[k]| == 3)
    && |Table(rows)| == |rows|
    && TableFits(d, Table(rows), files, record)
  }

  /** What the verifier demands of the RECORD file, for the given files. */
  ghost predicate RecordFits(lib: Library, files: FileMap, record: string) {
    && record in files
    && lib.decode(files[record]).Some?
    && Csv.ReadRows(lib.decode(files[record]).value).Some?
    && RowsFit(Describe(lib), Csv.ReadRows(lib.decode(files[record]).value).value, files, record)
  }

  lemma {:induction false} TableOfFileRows(d: Description, names: seq<string>, files: FileMap)
    requires Distinct(names) && forall k :: 0 <= k < |names| ==> names[k] in files
    ensures Table(FileRows(d, names, files)) == (map n | n in Elements(names) && n in files :: d(files[n]))
  {
    if names != [] {
      var front := names[..|names| - 1];
      var rows := FileRows(d, names, files);
      assert rows[..|rows| - 1] == FileRows(d, front, files) && names == front + [names[|names| - 1]];
      TableOfFileRows(d, front, files);
    }
  }

  function BodyTable(d: Description, body: FileMap, record: string): map<string, (string, string)> {
    (map n | n in body :: d(body[n]))[record := ("", "")]
  }

  lemma TableOfRecordRows(d: Description, names: seq<string>, body: FileMap, record: string)
    requires Distinct(names) && Elements(names) == body.Keys
    requires forall k :: 0 <= k < |names| ==> names[k] in body
    ensures Table(RecordRows(d, names, body, record)) == BodyTable(d, body, record)
  {
    var rows, front := RecordRows(d, names, body, record), FileRows(d, names, body);
    assert rows[..|rows| - 1] == front && rows[|rows| - 1] == [record, "", ""];
    TableOfFileRows(d, names, body);
    assert (map n | n in Elements(names) && n in body :: d(body[n])) == map n | n in body :: d(body[n]);
  }

  lemma BodyTableFits(d: Description, body: FileMap, record: string, content: Bytes)
    requires record !in body
    ensures TableFits(d, BodyTable(d, body, record), body[record := content], record)
    ensures |BodyTable(d, body, record)| == |body| + 1
  {
    var plain := map n | n in body :: d(body[n]);
    assert plain.Keys == body.Keys;
    assert BodyTable(d, body, record).Keys == body.Keys + {record};
  }

  lemma RowsOfBodyFit(d: Description, names: seq<string>, body: FileMap, record: string, content: Bytes)
    requires Distinct(names) && Elements(names) == body.Keys && record !in body
    requires forall k :: 0 <= k < |names| ==> names[k] in body
    ensures RowsFit(d, RecordRows(d, names, body, record), body[record := content], record)
  {
    TableOfRecordRows(d, names, body, record);
    BodyTableFits(d, body, record, content);
    DistinctIffAllCounted(names);
    assert |body| == |body.Keys|;
  }

  lemma RowsAreClean(lib: Library, names: seq<string>, files: FileMap, record: string)
    requires Lawful(lib) && Csv.NoReturn(record)
    requires forall k :: 0 <= k < |names| ==> names[k] in files && Csv.NoReturn(names[k])
    ensures forall k :: 0 <= k < |names| + 1 ==> Csv.Clean(RecordRows(Describe(lib), names, files, record)[k])
  {
    var rows := RecordRows(Describe(lib), names, files, record);
    forall k | 0 <= k < |names| ensures Csv.Clean(rows[k]) {
      UnpaddedIs(lib.base64(lib.sha(files[names[k]])));
      DecimalHasNoReturn(|files[names[k]]|);
      assert rows[k] == [names[k], DigestField(lib, files[names[k]]), Decimal(|files[names[k]]|)];
    }
  }

  lemma RecordOfBodyFits(lib: Library, body: FileMap, record: string)
    requires Lawful(lib) && record !in body && Csv.NoReturn(record) && forall n :: n in body ==> Csv.NoReturn(n)
    ensures RecordFits(lib, body[record := RecordContent(lib, body, record)], record)
  {
    var names := Sorted(body.Keys);
    assert forall k :: 0 <= k < |names| ==> names[k] in Elements(names);
    AscendingIsDistinct(names);
    RowsAreClean(lib, names, body, record);
    Csv.RowsReadBack(RecordRows(Describe(lib), names, body, record));
    RowsOfBodyFit(Describe(lib), names, body, record, RecordContent(lib, body, record));
  }

  /** The RECORD that is written parses back to one correct hash and size per member and a blank row for itself. */
  lemma WrittenRecordFits(lib: Library, p: Plan)
    requires Lawful(lib) && WellFormed(p)
    ensures RecordFits(lib, CanonicalFiles(lib, p), p.record)
    ensures RecordStates(lib, CanonicalFiles(lib, p), p.record)
  {
    BodyNames(p);
    RecordOfBodyFits(lib, Body(p), p.record);
    FittingRecordStates(lib, CanonicalFiles(lib, p), p.record);
  }

  /** What the RECORD file says of every other file: its hash in unpadded base64, and its size as a numeral. */
  ghost predicate RecordStates(lib: Library, files: FileMap, record: string)
    requires RecordFits(lib, files, record)
  {
    var table := Table(Csv.ReadRows(lib.decode(files[record]).value).value);
    forall n :: n in files && n != record ==>
      && n in table
      && table[n].0 == "sha256=" + Unpadded(lib.base64(lib.sha(files[n])))
      && IsNumeral(table[n].1) && Val(table[n].1) == |files[n]|
  }

  lemma FittingRecordStates(lib: Library, files: FileMap, record: string)
    requires RecordFits(lib, files, record)
    ensures RecordStates(lib, files, record)
  {
    var table := Table(Csv.ReadRows(lib.decode(files[record]).value).value);
    forall n | n in files && n != record
      ensures n in table && table[n] == (DigestField(lib, files[n]), Decimal(|files[n]|))
      ensures IsNumeral(table[n].1) && Val(table[n].1) == |files[n]|
    {
      DecimalReads(|files[n]|);
    }
  }

  // ----- writing

  /** The loop that writes one row per name. */
  method WriteFileRows(d: Description, names: seq<string>, files: FileMap) returns (text: string)
    requires forall k :: 0 <= k < |names| ==> names[k] in files
    ensures text == Csv.WriteRows(FileRows(d, names, files))
  {
    text := "";
    ghost var rows := FileRows(d, names, files);
    for k := 0 to |names|
      invariant text == Csv.WriteRows(rows[..k])
    {
      assert rows[..k + 1] == rows[..k] + [rows[k]];
      Csv.WriteOneMore(rows[..k], rows[k]);
      text := text + Csv.WriteRow([names[k], d(files[names[k]]).0, d(files[names[k]]).1]);
    }
    assert rows[..|names|] == rows;
  }

  /** The RECORD file of a body: its rows in name order, and the blank row of RECORD itself. */
  method WriteRecord(lib: Library, body: FileMap, record: string) returns (content: Bytes)
    ensures content == RecordContent(lib, body, record)
  {
    var names := Sort(body.Keys);
    OneList(names, Sorted(body.Keys));
    assert forall k :: 0 <= k < |names| ==> names[k] in Elements(names);
    var text := WriteFileRows(Describe(lib), names, body);
    var self := [record, "", ""];
    Csv.WriteOneMore(FileRows(Describe(lib), names, body), self);
    content := lib.encode(text + Csv.WriteRow(self));
  }

  /** The loop that copies the sources over the files. */
  method CopySources(listing: seq<string>, sources: FileMap, pack: string -> string, built: FileMap)
    returns (files: FileMap)
    requires forall n :: n in listing ==> n in sources
    ensures files == built + Packed(listing, sources, pack)
  {
    files := built;
    for k := 0 to |listing|
      invariant files == built + Packed(listing[..k], sources, pack)
    {
      assert listing[..k + 1][..k] == listing[..k] && listing[k] in listing;
      files := files[pack(listing[k]) := sources[listing[k]]];
    }
    assert listing[..|listing|] == listing;
  }

  /** Files given by name and optional content. */
  function Overlay(names: seq<string>, contents: seq<Option<Bytes>>): FileMap
    requires |names| == |contents|
  {
    if names == [] then map[] else
      var n := |names| - 1;
      var before := Overlay(names[..n], contents[..n]);
      if contents[n].Some? then before[names[n] := contents[n].value] else before
  }

  lemma {:induction false} OverlayHolds(names: seq<string>, contents: seq<Option<Bytes>>)
    requires |names| == |contents| && Distinct(names)
    ensures forall m :: m in Overlay(names, contents) <==>
              exists k :: 0 <= k < |names| && contents[k].Some? && names[k] == m
    ensures forall k :: 0 <= k < |names| && contents[k].Some? ==>
              names[k] in Overlay(names, contents) && Overlay(names, contents)[names[k]] == contents[k].value
  {
    if names != [] {
      OverlayHolds(names[..|names| - 1], contents[..|names| - 1]);
    }
  }

  /** The statements that set these files one after the other. */
  method SetFiles(names: seq<string>, contents: seq<Option<Bytes>>, before: FileMap) returns (files: FileMap)
    requires |names| == |contents|
    ensures files == before + Overlay(names, contents)
  {
    files := before;
    for k := 0 to |names|
      invariant files == before + Overlay(names[..k], contents[..k])
    {
      assert names[..k + 1][..k] == names[..k] && contents[..k + 1][..k] == contents[..k];
      if contents[k].Some? {
        files := files[names[k] := contents[k].value];
      }
    }
    assert names[..|names|] == names && contents[..|names|] == contents;
  }

  /** Once every name but RECORD is overwritten, nothing of what was there before is left. */
  lemma NothingBuiltRemains(built: FileMap, packed: FileMap, fixed: FileMap, record: string)
    requires built.Keys <= packed.Keys + fixed.Keys + {record} && record !in packed && record !in fixed
    ensures (built + packed + fixed) - {record} == packed + fixed
  {
  }

  /** The loop that writes the members in name order. */
  method WriteArchive(files: FileMap) returns (a: Archive)
    ensures a == ArchiveOf(files)
  {
    var names := Sort(files.Keys);
    OneList(names, Sorted(files.Keys));
    a := [];
    for k := 0 to |names|
      invariant |a| == k
      invariant forall n :: 0 <= n < k ==>
                  a[n].name == names[n] && names[n] in files && a[n].content == files[names[n]]
    {
      assert names[k] in Elements(names);
      a := a + [Member(names[k], files[names[k]])];
    }
  }
}

/** The names inside the release wheel and what the builder and the verifier ask about names. */
module WheelNames {
  import opened AsciiText
  import opened ArchivePlan

  /**
   Everything the wheel code asks about names: which sources are packed, under which
   name, what lies in the package or mentions a dist-info directory, and the names and suffixes of
   the metadata files.
   */
  datatype Naming = Naming(
    isPackaged: string -> bool,
    pack: string -> string,
    inPackage: string -> bool,
    inDistInfo: string -> bool,
    firstPart: string -> string,
    distInfo: string,
    dist: DistName -> string,
    endsLike: (string, DistName) -> bool,
    versionSource: string,
    packagedSchema: string)

  datatype DistName = Metadata | Wheel | EntryPoints | Provenance | License | Record

  ghost predicate Good(N: Naming) {
    && (forall x, y :: N.dist(x) == N.dist(y) ==> x == y)
    && (forall x ::
          && FileName(N.dist(x)) && N.inDistInfo(N.dist(x))
          && N.firstPart(N.dist(x)) == N.distInfo && !N.inPackage(N.dist(x)))
    && (forall n :: N.isPackaged(n) && FileName(n) ==>
          FileName(N.pack(n)) && N.inPackage(N.pack(n)) && N.firstPart(N.pack(n)) != N.distInfo)
    && (forall x, y :: N.endsLike(N.dist(x), y) <==> x == y)
    && (forall n, x :: N.endsLike(n, x) ==> N.inDistInfo(n))
  }

  // ----- the names of the release

  const PYPROJECT := "pyproject.toml"
  const SCHEMA := "schemas/acceptance-evidence.schema.json"
  const DIST_INFO := "artifex_dev-1.0.0" + ".dist-info"

  function Under(name: string): string {
    "artifex" + ("/" + name)
  }

  predicate IsPackaged(n: string) {
    n == SCHEMA || "src/artifex/" <= n
  }

  /** The schema has its own place in the package; every other source loses its `src/`. */
  function Pack(n: string): string {
    if n == SCHEMA then Under("schemas/acceptance-evidence.schema.json")
    else if "src/artifex/" <= n then Under(n[12..])
    else n
  }

  function Tail(x: DistName): string {
    match x
    case Metadata => "METADATA"
    case Wheel => "WHEEL"
    case EntryPoints => "entry_points.txt"
    case Provenance => "artifex-release-provenance.json"
    case License => "licenses/LICENSE"
    case Record => "RECORD"
  }

  function Dist(name: string): string {
    DIST_INFO + ("/" + name)
  }

  predicate EndsWith(s: string, w: string) {
    |w| <= |s| && s[|s| - |w|..] == w
  }

  function FirstPart(s: string): (r: string)
    ensures |r| <= |s|
  {
    if s == [] || s[0] == '/' then [] else [s[0]] + FirstPart(s[1..])
  }

  /** The first part of a POSIX path; empty and dot parts are skipped, and an absolute path starts with its slash. */
  function Root(s: string): string {
    if s != [] && s[0] == '/' then "/" else FirstRealPart(s)
  }

  function FirstRealPart(s: string): string
    decreases |s|
  {
    var p := FirstPart(s);
    if p != "" && p != "." then p else if |p| == |s| then "" else FirstRealPart(s[|p| + 1..])
  }

  function Release(): Naming {
    Naming(
      n => IsPackaged(n),
      n => Pack(n),
      n => "artifex/" <= n,
      n => Contains(n, ".dist-info/"),
      n => Root(n),
      DIST_INFO,
      x => Dist(Tail(x)),
      (n, x) => EndsWith(n, ".dist-info/" + Tail(x)),
      Under("_version.py"),
      Under("schemas/acceptance-evidence.schema.json"))
  }

  lemma {:induction false} ContainsInside(a: string, w: string, b: string)
    ensures Contains(a + (w + b), w)
  {
    var s := a + (w + b);
    if a == [] {
      assert s == w + b;
    } else {
      assert s[1..] == a[1..] + (w + b);
      ContainsInside(a[1..], w, b);
    }
  }

  lemma EndsWithContains(s: string, w: string, v: string)
    requires EndsWith(s, w + v)
    ensures Contains(s, w)
  {
    var a := s[..|s| - |w + v|];
    assert s == a + (w + v);
    ContainsInside(a, w, v);
  }

  lemma {:induction false} FirstPartIs(a: string, b: string)
    requires '/' !in a
    ensures FirstPart(a + ("/" + b)) == a
  {
    var s := a + ("/" + b);
    if a != [] {
      assert s[1..] == a[1..] + ("/" + b) && s[0] == a[0];
      FirstPartIs(a[1..], b);
    }
  }

  lemma RootIs(a: string, b: string)
    requires '/' !in a && a != "" && a != "."
    ensures Root(a + ("/" + b)) == a
  {
    FirstPartIs(a, b);
    assert (a + ("/" + b))[0] == a[0];
  }

  lemma DistNames(x: string)
    requires FileName(x)
    ensures FileName(Dist(x)) && Contains(Dist(x), ".dist-info/") && Root(Dist(x)) == DIST_INFO
    ensures !("artifex/" <= Dist(x))
  {
    var a, w := "artifex_dev-1.0.0", ".dist-info/";
    assert Dist(x) == a + (w + x);
    ContainsInside(a, w, x);
    assert |DIST_INFO| > 1;
    RootIs(DIST_INFO, x);
    assert Dist(x)[7] == '_' && "artifex/"[7] == '/';
    assert Dist(x)[|Dist(x)| - 1] == x[|x| - 1];
  }

  lemma TailIsFileName(x: DistName)
    ensures FileName(Tail(x))
  {
  }

  function LastChar(x: DistName): char {
    match x
    case Metadata => 'A'
    case Wheel => 'L'
    case EntryPoints => 't'
    case Provenance => 'n'
    case License => 'E'
    case Record => 'D'
  }

  lemma TailLast(x: DistName)
    ensures Tail(x)[|Tail(x)| - 1] == LastChar(x)
  {
  }

  lemma LastOfDist(x: DistName)
    ensures Dist(Tail(x)) != "" && Dist(Tail(x))[|Dist(Tail(x))| - 1] == LastChar(x)
    ensures (".dist-info/" + Tail(x))[|".dist-info/" + Tail(x)| - 1] == LastChar(x)
  {
    TailLast(x);
  }

  lemma EndsWithLast(s: string, w: string)
    requires s != "" && w != "" && EndsWith(s, w)
    ensures s[|s| - 1] == w[|w| - 1]
  {
    assert s[|s| - |w|..][|w| - 1] == s[|s| - 1];
  }

  lemma LastTellsName(x: DistName, y: DistName)
    ensures LastChar(x) == LastChar(y) <==> x == y
  {
  }

  lemma DistEnds(x: DistName)
    ensures EndsWith(Dist(Tail(x)), ".dist-info/" + Tail(x))
  {
    assert Dist(Tail(x)) == "artifex_dev-1.0.0" + (".dist-info/" + Tail(x));
  }

  lemma SuffixTellsName(x: DistName, y: DistName)
    ensures EndsWith(Dist(Tail(x)), ".dist-info/" + Tail(y)) <==> x == y
  {
    LastOfDist(x);
    LastOfDist(y);
    LastTellsName(x, y);
    DistEnds(x);
    if EndsWith(Dist(Tail(x)), ".dist-info/" + Tail(y)) { EndsWithLast(Dist(Tail(x)), ".dist-info/" + Tail(y)); }
  }

  lemma PackedNameIsFileName(n: string)
    requires IsPackaged(n) && FileName(n)
    ensures FileName(Pack(n)) && "artifex/" <= Pack(n) && Root(Pack(n)) == "artifex"
  {
    var x := if n == SCHEMA then "schemas/acceptance-evidence.schema.json" else n[12..];
    if n != SCHEMA {
      assert n == "src/artifex/" + x;
      PrefixedTail("src/artifex/", x);
    }
    assert Under(x)[|Under(x)| - 1] == x[|x| - 1];
    RootIs("artifex", x);
  }

  lemma PrefixedTail(p: string, x: string)
    requires p != [] && p[|p| - 1] == '/' && FileName(p + x)
    ensures FileName(x)
  {
    assert x == [] ==> p + x == p;
    assert x != [] ==> (p + x)[|p + x| - 1] == x[|x| - 1];
    assert forall k :: 0 <= k < |x| ==> x[k] == (p + x)[|p| + k];
  }

  lemma ReleaseNamesAreGood()
    ensures Good(Release())
  {
    var N := Release();
    forall x
      ensures FileName(N.dist(x)) && N.inDistInfo(N.dist(x)) && N.firstPart(N.dist(x)) == N.distInfo &&
              !N.inPackage(N.dist(x))
    {
      TailIsFileName(x);
      DistNames(Tail(x));
    }
    forall x, y ensures N.endsLike(N.dist(x), y) <==> x == y { SuffixTellsName(x, y); }
    forall x, y | N.dist(x) == N.dist(y) ensures x == y { SuffixTellsName(x, x); SuffixTellsName(y, x); }
    forall n | N.isPackaged(n) && FileName(n)
      ensures FileName(N.pack(n)) && N.inPackage(N.pack(n)) && N.firstPart(N.pack(n)) != N.distInfo
    {
      PackedNameIsFileName(n);
    }
    forall n, x | N.endsLike(n, x) ensures N.inDistInfo(n) { EndsWithContains(n, ".dist-info/", Tail(x)); }
  }
}

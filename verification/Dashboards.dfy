/** The two dashboards and their blocks in the web server's configuration. */
module Dashboards {
  import opened AsciiText
  import opened MarkerBlocks
  import opened HostRecords

  datatype Dashboard = Operational | Implementation

  function HostName(d: Dashboard): string {
    match d
    case Operational => "artifex-dev.crugger.lan"
    case Implementation => "artifex-impl.crugger.lan"
  }

  function Container(d: Dashboard): string {
    match d
    case Operational => "artifex-dashboard"
    case Implementation => "artifex-implementation-dashboard"
  }

  function Marker(d: Dashboard): string {
    match d
    case Operational => "ARTIFEX DASHBOARD"
    case Implementation => "ARTIFEX IMPLEMENTATION DASHBOARD"
  }

  const BEGIN := "# BEGIN "
  const END := "# END "

  const REDIRECT := "\trespond \"Not Found\" 404\n"
  const TLS := "\ttls internal\n\tencode gzip\n"
  const CACHE := "\t\tCache-Control \"no-store\"\n"
  const REFERRER := "\t\tReferrer-Policy \"no-referrer\"\n"
  const CONTENT := "\t\tX-Content-Type-Options "
  const FRAME := "\t\tX-Frame-Options \"DENY\"\n\t}\n"
  const PRIVATE := "\t@private remote_ip "
  const LAN := "192.168.1.0/24 100.64.0.0/10 "
  const OTHERS := "10.0.0.0/8 172.16.0.0/12\n"
  const HANDLE := "\thandle @private {\n"
  const PROXY := "\t\treverse_proxy "
  const REST := "\trespond \"Forbidden\" 403\n}"

  function Plain(host: string): string {
    "http://" + host + " {\n" + REDIRECT + "}\n\n"
  }

  function Secure(host: string): string {
    "https://" + host + " {\n" + TLS + "\theader {\n" + CACHE + REFERRER + (CONTENT + "\"nosniff\"\n" + FRAME)
  }

  function Proxy(container: string): string {
    PRIVATE + LAN + OTHERS + (HANDLE + PROXY + container + ":8080\n\t}\n" + REST)
  }

  /** The lines between the markers. */
  function Inner(host: string, container: string): string {
    Plain(host) + Secure(host) + Proxy(container)
  }

  function BlockOf(d: Dashboard): Target {
    Target(BEGIN + Marker(d), Inner(HostName(d), Container(d)), END + Marker(d))
  }

  /** The text has this line somewhere. */
  ghost predicate HasText(s: string, line: string) {
    exists a, b :: s == a + line + b
  }

  lemma HasInside(a: string, line: string, b: string)
    ensures HasText(a + line + b, line)
  {
  }

  lemma PlainRefuses(host: string)
    ensures "http://" + host + " {\n" + REDIRECT <= Plain(host)
  {
    assert Plain(host) == "http://" + host + " {\n" + REDIRECT + "}\n\n";
  }

  /** What a block is for: plain requests for the host are turned away, secure ones from the private networks go to the
      container, and all others are refused. */
  lemma BlockServes(host: string, container: string)
    ensures "http://" + host + " {\n" + REDIRECT <= Plain(host) <= Inner(host, container)
    ensures HasText(Inner(host, container), "https://" + host + " {\n")
    ensures HasText(Inner(host, container), PRIVATE + LAN + OTHERS + HANDLE)
    ensures HasText(Inner(host, container), PROXY + container + ":8080\n")
    ensures HasText(Inner(host, container), REST)
  {
    PlainRefuses(host);
    var header := TLS + "\theader {\n" + CACHE + REFERRER + (CONTENT + "\"nosniff\"\n" + FRAME);
    SecureIs(host, header);
    ProxyIs(container);
    PartsInside(Plain(host), "https://" + host + " {\n", header, PRIVATE + LAN + OTHERS + HANDLE,
                PROXY + container + ":8080\n", "\t}\n", REST, Inner(host, container));
  }

  lemma SecureIs(host: string, header: string)
    requires header == TLS + "\theader {\n" + CACHE + REFERRER + (CONTENT + "\"nosniff\"\n" + FRAME)
    ensures Secure(host) == "https://" + host + " {\n" + header
  {
  }

  lemma ProxyIs(container: string)
    ensures Proxy(container) ==
            (PRIVATE + LAN + OTHERS + HANDLE) + (PROXY + container + ":8080\n") + "\t}\n" + REST
  {
  }

  lemma PartsInside(a: string, b: string, c: string, d: string, e: string, f: string, g: string, s: string)
    requires s == a + (b + c) + (d + e + f + g)
    ensures HasText(s, b) && HasText(s, d) && HasText(s, e) && HasText(s, g) && a <= s
  {
    HasInside(a, b, c + (d + e + f + g));
    assert s == a + b + (c + (d + e + f + g));
    HasInside(a + b + c, d, e + f + g);
    assert s == a + b + c + d + (e + f + g);
    HasInside(a + b + c + d, e, f + g);
    assert s == a + b + c + d + e + (f + g);
    HasInside(a + b + c + d + e + f, g, "");
    assert s == a + b + c + d + e + f + g + "";
  }

  /** Neither a `#` nor a carriage return. */
  predicate Harmless(s: string) {
    forall k :: 0 <= k < |s| ==> s[k] != '#' && s[k] != '\r'
  }

  lemma ShortPieces()
    ensures Harmless("http://") && Harmless("https://") && Harmless(" {\n") && Harmless("}\n\n")
    ensures Harmless("\theader {\n")
    ensures Harmless("\"nosniff\"\n") && Harmless(":8080\n\t}\n")
  {
  }

  lemma PlainPieces() ensures Harmless(REDIRECT) && Harmless(TLS) {}

  lemma HeaderPieces() ensures Harmless(CACHE) && Harmless(REFERRER) {}

  lemma MoreHeaderPieces() ensures Harmless(CONTENT) && Harmless(FRAME) {}

  lemma ProxyPieces() ensures Harmless(PRIVATE) && Harmless(LAN) && Harmless(OTHERS) {}

  lemma MoreProxyPieces() ensures Harmless(HANDLE) && Harmless(PROXY) && Harmless(REST) {}

  lemma HostHarmless(d: Dashboard) ensures Harmless(HostName(d)) {}

  lemma ContainerHarmless(d: Dashboard) ensures Harmless(Container(d)) {}

  lemma InnerHarmless(host: string, container: string)
    requires Harmless(host) && Harmless(container)
    ensures Harmless(Inner(host, container))
  {
    PlainHarmless(host);
    SecureHarmless(host);
    ProxyHarmless(container);
  }

  lemma PlainHarmless(host: string)
    requires Harmless(host)
    ensures Harmless(Plain(host))
  {
    ShortPieces();
    PlainPieces();
  }

  lemma SecureHarmless(host: string)
    requires Harmless(host)
    ensures Harmless(Secure(host))
  {
    ShortPieces();
    PlainPieces();
    HeaderPieces();
    MoreHeaderPieces();
  }

  lemma ProxyHarmless(container: string)
    requires Harmless(container)
    ensures Harmless(Proxy(container))
  {
    ShortPieces();
    ProxyPieces();
    MoreProxyPieces();
  }

  /** One line without `#` that does not end in a space. */
  predicate IsTitle(s: string) {
    |s| > 0 && !IsSpace(s[|s| - 1]) && forall k :: 0 <= k < |s| ==> s[k] != '#' && s[k] != '\r' && s[k] != '\n'
  }

  lemma MarkerIsTitle(d: Dashboard) ensures IsTitle(Marker(d)) {}

  lemma TitleMarks(title: string)
    requires IsTitle(title)
    ensures IsMark(BEGIN + title) && IsMark(END + title) && Unrelated(BEGIN + title, END + title)
    ensures '\r' !in BEGIN + title && '\r' !in END + title
  {
    assert (BEGIN + title)[2] == 'B' && (END + title)[2] == 'E';
  }

  lemma MarkersDiffer()
    ensures Unrelated(Marker(Operational), Marker(Implementation))
  {
    assert Marker(Operational)[8] == 'D' && Marker(Implementation)[8] == 'I';
  }

  lemma MarksApart(a: string, b: string)
    requires Unrelated(a, b)
    ensures Unrelated(BEGIN + a, BEGIN + b) && Unrelated(END + a, END + b) && Unrelated(BEGIN + a, END + b)
    ensures Unrelated(END + a, BEGIN + b)
  {
    PrefixApart(BEGIN, a, b);
    PrefixApart(END, a, b);
    assert (BEGIN + a)[2] == 'B' && (END + a)[2] == 'E' && (BEGIN + b)[2] == 'B' && (END + b)[2] == 'E';
  }

  lemma PrefixApart(p: string, a: string, b: string)
    requires Unrelated(a, b)
    ensures Unrelated(p + a, p + b)
  {
    TailPrefix(p, a, b);
    TailPrefix(p, b, a);
  }

  lemma TailPrefix(p: string, a: string, b: string)
    ensures p + a <= p + b ==> a <= b
  {
    if p + a <= p + b {
      assert forall k :: 0 <= k < |a| ==> a[k] == (p + a)[|p| + k] && b[k] == (p + b)[|p| + k];
    }
  }

  ghost const FAMILY: set<Target> := {BlockOf(Operational), BlockOf(Implementation)}

  lemma BlockIsTarget(d: Dashboard)
    ensures IsTarget(BlockOf(d)) && '\r' !in Block(BlockOf(d))
  {
    HostHarmless(d);
    ContainerHarmless(d);
    InnerHarmless(HostName(d), Container(d));
    MarkerIsTitle(d);
    TitleMarks(Marker(d));
  }

  lemma PairIsFamily(s: Target, t: Target)
    requires IsTarget(s) && IsTarget(t) && Apart(s, t)
    ensures Family({s, t})
  {
  }

  /** The two blocks do not interfere. */
  lemma BlocksAreFamily()
    ensures Family(FAMILY)
  {
    BlockIsTarget(Operational);
    BlockIsTarget(Implementation);
    MarkersDiffer();
    MarksApart(Marker(Operational), Marker(Implementation));
    PairIsFamily(BlockOf(Operational), BlockOf(Implementation));
  }

  // ----- DNS records

  const RECORD := "host-record="
  const ADDRESS := ",192.168.1.193"

  function HostOf(d: Dashboard): Host {
    Host(HostName(d), RECORD + HostName(d) + ADDRESS)
  }

  lemma RecordPieces() ensures IsLine(RECORD) && IsLine(ADDRESS) {}

  lemma HostIsLine(d: Dashboard) ensures IsLine(HostName(d)) {}

  lemma RecordIsHost(d: Dashboard)
    ensures IsHost(HostOf(d))
  {
    RecordPieces();
    HostIsLine(d);
    NamedRecord(HostName(d));
  }

  lemma NamedRecord(name: string)
    requires IsLine(name) && IsLine(RECORD) && IsLine(ADDRESS)
    ensures IsHost(Host(name, RECORD + name + ADDRESS))
  {
    var record := RECORD + name + ADDRESS;
    assert record[|RECORD|..|RECORD| + |name|] == name;
    assert Occurs(record, name, |RECORD|);
    assert record[0] == 'h';
    assert TrimStart(record) == record;
  }

  /** The letter `x` is at one place only. */
  predicate OneX(s: string, at: nat) {
    at < |s| && forall k :: 0 <= k < |s| ==> (s[k] == 'x' <==> k == at)
  }

  lemma NamesHaveOneX(d: Dashboard) ensures OneX(HostName(d), 6) {}

  lemma NamesDiffer() ensures HostName(Operational)[8] == 'd' && HostName(Implementation)[8] == 'i' {}

  lemma NoXAround() ensures 'x' !in RECORD && 'x' !in ADDRESS {}

  lemma NotMentioned(name: string, other: string)
    requires OneX(name, 6) && OneX(other, 6) && |name| > 8 && |other| > 8 && name[8] != other[8]
    ensures !Mentions(RECORD + name + ADDRESS, other)
  {
    NoXAround();
    var record := RECORD + name + ADDRESS;
    if Mentions(record, other) {
      var i :| 0 <= i <= |record| - |other| && Occurs(record, other, i);
      OccursAt(record, other, i, 6);
    }
  }

  /** The record of one dashboard is not taken for an entry of the other. */
  lemma RecordsApart(d: Dashboard, e: Dashboard)
    requires d != e
    ensures !Mentions(HostOf(d).record, HostOf(e).name)
  {
    NamesHaveOneX(d);
    NamesHaveOneX(e);
    NamesDiffer();
    NotMentioned(HostName(d), HostName(e));
  }
}

/**
 Newline canonicalisation behind a text gate, as the baseline capture applies it to every archived
 file, and the portable text form behind the release digest.
 */
module Newlines {
  import opened ByteText

  /** `replace(b"\r\n", b"\n")`. */
  function ToLf(s: Bytes): Bytes {
    if s == [] then []
    else if |s| >= 2 && s[0] == CR && s[1] == LF then [LF] + ToLf(s[2..])
    else [s[0]] + ToLf(s[1..])
  }

  /** `replace(b"\n", b"\r\n")`. */
  function ToCrlf(s: Bytes): Bytes {
    if s == [] then []
    else if s[0] == LF then [CR, LF] + ToCrlf(s[1..])
    else [s[0]] + ToCrlf(s[1..])
  }

  /** One byte replaced by another throughout. */
  function ReplaceByte(s: Bytes, old_: byte, new_: byte): Bytes {
    if s == [] then [] else [if s[0] == old_ then new_ else s[0]] + ReplaceByte(s[1..], old_, new_)
  }

  predicate PassesGate(s: Bytes) {
    NUL !in s && IsUtf8(s)
  }

  function AcceptedFixtureBytes(s: Bytes): Bytes {
    if PassesGate(s) then ToCrlf(ToLf(s)) else s
  }

  /** The text whose hash is the portable digest. */
  function Portable(s: Bytes): Bytes {
    ReplaceByte(ToLf(s), CR, LF)
  }

  predicate HasCrlf(s: Bytes) {
    exists k :: 0 <= k < |s| - 1 && s[k] == CR && s[k + 1] == LF
  }

  // ----- the two replacements

  lemma ToCrlfHead(s: Bytes)
    ensures s != [] ==> ToCrlf(s) != [] && ToCrlf(s)[0] != LF
  {
  }

  /** Expanding and collapsing gives the text back, so expanding is injective. */
  lemma {:induction false} LfUndoesCrlf(s: Bytes)
    ensures ToLf(ToCrlf(s)) == s
  {
    if s != [] {
      LfUndoesCrlf(s[1..]);
      ToCrlfHead(s[1..]);
      var rest := ToCrlf(s[1..]);
      if s[0] == LF {
        assert ([CR, LF] + rest)[2..] == rest;
      } else {
        assert ([s[0]] + rest)[1..] == rest;
      }
    }
  }

  /** Collapsing is the identity exactly on texts without a pair. */
  lemma {:induction false} LfKeepsPairless(s: Bytes)
    ensures ToLf(s) == s <==> !HasCrlf(s)
    ensures |ToLf(s)| <= |s| && (HasCrlf(s) ==> |ToLf(s)| < |s|)
  {
    if s != [] {
      var tail := s[1..];
      if |s| >= 2 && s[0] == CR && s[1] == LF {
        LfKeepsPairless(s[2..]);
      } else {
        LfKeepsPairless(tail);
        assert HasCrlf(s) <==> HasCrlf(tail) by {
          if HasCrlf(s) {
            var k :| 0 <= k < |s| - 1 && s[k] == CR && s[k + 1] == LF;
            assert tail[k - 1] == CR && tail[k] == LF;
          }
          if HasCrlf(tail) {
            var k :| 0 <= k < |tail| - 1 && tail[k] == CR && tail[k + 1] == LF;
            assert s[k + 1] == CR && s[k + 1 + 1] == LF;
          }
        }
      }
    }
  }

  /** Each pair becomes one line feed. */
  lemma {:induction false} PairBecomesLf(a: Bytes, b: Bytes)
    ensures ToLf(a + [CR, LF] + b) == ToLf(a) + [LF] + ToLf(b)
    decreases |a|
  {
    var s := a + [CR, LF] + b;
    if a == [] {
      assert s[2..] == b;
    } else if |a| >= 2 && a[0] == CR && a[1] == LF {
      PairBecomesLf(a[2..], b);
      assert s[2..] == a[2..] + [CR, LF] + b;
    } else {
      PairBecomesLf(a[1..], b);
      assert s[1..] == a[1..] + [CR, LF] + b;
    }
  }

  /** Each line feed becomes a pair; other bytes stay. */
  lemma {:induction false} LfBecomesPair(a: Bytes, b: Bytes)
    requires LF !in a
    ensures ToCrlf(a) == a && ToCrlf(a + [LF] + b) == a + [CR, LF] + ToCrlf(b)
  {
    var s := a + [LF] + b;
    if a == [] {
      assert s[1..] == b;
    } else {
      assert a == [a[0]] + a[1..];
      LfBecomesPair(a[1..], b);
      assert s[1..] == a[1..] + [LF] + b;
    }
  }

  /** One byte replaced, the others where they were. */
  lemma {:induction false} ReplacedAt(s: Bytes, o: byte, n: byte)
    ensures |ReplaceByte(s, o, n)| == |s|
    ensures forall k :: 0 <= k < |s| ==> ReplaceByte(s, o, n)[k] == if s[k] == o then n else s[k]
  {
    if s != [] { ReplacedAt(s[1..], o, n); }
  }

  // ----- the gate

  lemma {:induction false} NulKept(s: Bytes)
    ensures NUL in ToLf(s) <==> NUL in s
    ensures NUL in ToCrlf(s) <==> NUL in s
  {
    if s != [] {
      NulKept(s[1..]);
      assert s == [s[0]] + s[1..];
      if |s| >= 2 && s[0] == CR && s[1] == LF {
        NulKept(s[2..]);
        assert s == [CR, LF] + s[2..];
      }
    }
  }

  /** Bytes of a longer character are copied by both replacements. */
  lemma HighBytesCopied(s: Bytes, n: nat)
    requires n <= |s| && forall k :: 0 <= k < n ==> s[k] >= 0x80
    ensures ToLf(s) == s[..n] + ToLf(s[n..]) && ToCrlf(s) == s[..n] + ToCrlf(s[n..])
  {
    HighBytesCopiedByLf(s, n);
    HighBytesCopiedByCrlf(s, n);
  }

  lemma {:induction false} HighBytesCopiedByLf(s: Bytes, n: nat)
    requires n <= |s| && forall k :: 0 <= k < n ==> s[k] >= 0x80
    ensures ToLf(s) == s[..n] + ToLf(s[n..])
  {
    if n == 0 {
      assert s[0..] == s && s[..0] == [];
    } else {
      HighBytesCopiedByLf(s[1..], n - 1);
      assert s[1..][n - 1..] == s[n..] && [s[0]] + s[1..][..n - 1] == s[..n];
    }
  }

  lemma {:induction false} HighBytesCopiedByCrlf(s: Bytes, n: nat)
    requires n <= |s| && forall k :: 0 <= k < n ==> s[k] >= 0x80
    ensures ToCrlf(s) == s[..n] + ToCrlf(s[n..])
  {
    if n == 0 {
      assert s[0..] == s && s[..0] == [];
    } else {
      HighBytesCopiedByCrlf(s[1..], n - 1);
      assert s[1..][n - 1..] == s[n..] && [s[0]] + s[1..][..n - 1] == s[..n];
    }
  }

  lemma CharInFront(s: Bytes, rest: Bytes)
    requires CharLength(s) > 0 && IsUtf8(rest)
    ensures IsUtf8(s[..CharLength(s)] + rest)
  {
    CharLengthLocal(s, rest);
  }

  lemma AsciiInFront(b: byte, rest: Bytes)
    requires b <= 0x7F && IsUtf8(rest)
    ensures IsUtf8([b] + rest)
  {
    assert ([b] + rest)[1..] == rest;
  }

  lemma {:induction false} Utf8KeptByLf(s: Bytes)
    requires IsUtf8(s)
    ensures IsUtf8(ToLf(s))
    decreases |s|
  {
    if |s| >= 2 && s[0] == CR && s[1] == LF {
      assert s[1..][1..] == s[2..] && CharLength(s[1..]) == 1;
      Utf8KeptByLf(s[2..]);
      AsciiInFront(LF, ToLf(s[2..]));
    } else if s != [] {
      var n := CharLength(s);
      Utf8KeptByLf(s[n..]);
      CharInFront(s, ToLf(s[n..]));
      CharLengthLocal(s, []);
      if n > 1 { HighBytesCopied(s, n); } else { assert [s[0]] == s[..1]; }
    }
  }

  lemma {:induction false} Utf8KeptByCrlf(s: Bytes)
    requires IsUtf8(s)
    ensures IsUtf8(ToCrlf(s))
    decreases |s|
  {
    if s != [] {
      var n := CharLength(s);
      Utf8KeptByCrlf(s[n..]);
      var rest := ToCrlf(s[n..]);
      CharInFront(s, rest);
      CharLengthLocal(s, []);
      if n > 1 {
        HighBytesCopied(s, n);
      } else {
        assert [s[0]] == s[..1];
        if s[0] == LF {
          AsciiInFront(CR, [LF] + rest);
          assert [CR, LF] + rest == [CR] + ([LF] + rest);
        }
      }
    }
  }

  /** The accepted form passes the gate exactly when the content did. */
  lemma GateDecisionKept(s: Bytes)
    ensures PassesGate(AcceptedFixtureBytes(s)) <==> PassesGate(s)
  {
    if PassesGate(s) {
      NulKept(s);
      NulKept(ToLf(s));
      Utf8KeptByLf(s);
      Utf8KeptByCrlf(ToLf(s));
    }
  }

  // ----- main results

  /** Canonicalising twice is canonicalising once, for every byte string. */
  lemma CanonicalisationIdempotent(s: Bytes)
    ensures AcceptedFixtureBytes(AcceptedFixtureBytes(s)) == AcceptedFixtureBytes(s)
  {
    GateDecisionKept(s);
    LfUndoesCrlf(ToLf(s));
  }

  /** The LF and the CRLF checkout of a text agree exactly when the text has no CRLF pair of its own. */
  lemma CheckoutsAgree(s: Bytes)
    requires PassesGate(s)
    ensures PassesGate(ToCrlf(s))
    ensures AcceptedFixtureBytes(s) == AcceptedFixtureBytes(ToCrlf(s)) <==> !HasCrlf(s)
  {
    NulKept(s);
    Utf8KeptByCrlf(s);
    LfUndoesCrlf(s);
    LfKeepsPairless(s);
    LfUndoesCrlf(ToLf(s));
  }

  /** The input that fails: the text that is one CRLF pair. */
  lemma PairDisagrees()
    ensures PassesGate([CR, LF])
    ensures AcceptedFixtureBytes([CR, LF]) != AcceptedFixtureBytes(ToCrlf([CR, LF]))
  {
    assert [CR, LF][1..] == [LF] && [LF][1..] == [];
    assert IsUtf8([LF]) && IsUtf8([CR, LF]);
    assert [CR, LF][0] == CR && [CR, LF][0 + 1] == LF;
    CheckoutsAgree([CR, LF]);
  }

  lemma {:induction false} ReplacedIsGone(s: Bytes)
    ensures CR !in ReplaceByte(s, CR, LF)
    ensures CR !in s ==> ReplaceByte(s, CR, LF) == s
  {
    if s != [] {
      ReplacedIsGone(s[1..]);
      assert s == [s[0]] + s[1..];
    }
  }

  lemma {:induction false} CrFormCollapses(s: Bytes)
    requires CR !in s
    ensures ToLf(ReplaceByte(s, LF, CR)) == ReplaceByte(s, LF, CR) && ReplaceByte(ReplaceByte(s, LF, CR), CR, LF) == s
  {
    if s != [] {
      assert s == [s[0]] + s[1..];
      CrFormCollapses(s[1..]);
      var rest := ReplaceByte(s[1..], LF, CR);
      var all := ReplaceByte(s, LF, CR);
      assert all[1..] == rest;
      assert |all| >= 2 ==> all[1] != LF;
    }
  }

  /** The portable form of a CR-free text is the text, whether it is written with LF, CRLF or CR. */
  lemma PortableFormsAgree(s: Bytes)
    requires CR !in s
    ensures Portable(s) == Portable(ToCrlf(s)) == Portable(ReplaceByte(s, LF, CR)) == s
  {
    LfUndoesCrlf(s);
    LfKeepsPairless(s);
    ReplacedIsGone(s);
    CrFormCollapses(s);
  }

  /** The portable form never holds a carriage return and is stable. */
  lemma PortableIsNormal(s: Bytes)
    ensures CR !in Portable(s) && Portable(Portable(s)) == Portable(s)
  {
    ReplacedIsGone(ToLf(s));
    PortableFormsAgree(Portable(s));
  }

  // ----- the capture loop

  datatype Member = Member(name: string, content: Bytes)
  datatype Entry = Entry(path: string, bytes: nat, sha256: string)

  function EntryOf(m: Member, sha: Bytes -> string): Entry {
    Entry(m.name, |AcceptedFixtureBytes(m.content)|, sha(AcceptedFixtureBytes(m.content)))
  }

  /** What the aggregate hash reads for the entries: digest, two blanks, path, newline. */
  function Digested(entries: seq<Entry>): string {
    if entries == [] then "" else
      Digested(entries[..|entries| - 1]) + (entries[|entries| - 1].sha256 + "  " + entries[|entries| - 1].path + "\n")
  }

  /** The manifest of the members, given in name order. */
  method Capture(members: seq<Member>, sha: Bytes -> string) returns (files: seq<Entry>, aggregate: string)
    ensures files == EntriesOf(members, sha)
    ensures aggregate == Digested(EntriesOf(members, sha))
  {
    files := [];
    for k := 0 to |members|
      invariant |files| == k && forall n :: 0 <= n < k ==> files[n] == EntryOf(members[n], sha)
    {
      files := files + [EntryOf(members[k], sha)];
    }
    aggregate := "";
    for k := 0 to |files|
      invariant aggregate == Digested(files[..k])
    {
      assert files[..k + 1][..k] == files[..k];
      aggregate := aggregate + (files[k].sha256 + "  " + files[k].path + "\n");
    }
    assert files[..|files|] == files;
  }

  function EntriesOf(members: seq<Member>, sha: Bytes -> string): seq<Entry> {
    seq(|members|, k requires 0 <= k < |members| => EntryOf(members[k], sha))
  }

  /** The same file in the LF and in the CRLF checkout; what does not pass the gate is checked out as it is. */
  predicate SameFile(lf: Member, crlf: Member) {
    lf.name == crlf.name && crlf.content == if PassesGate(lf.content) then ToCrlf(lf.content) else lf.content
  }

  /** Two checkouts that differ only in the newline style of pairless texts have the same manifest: entries and
      aggregate. */
  lemma ManifestIgnoresNewlineStyle(lf: seq<Member>, crlf: seq<Member>, sha: Bytes -> string)
    requires |lf| == |crlf| && forall k :: 0 <= k < |lf| ==> SameFile(lf[k], crlf[k])
    requires forall k :: 0 <= k < |lf| && PassesGate(lf[k].content) ==> !HasCrlf(lf[k].content)
    ensures EntriesOf(lf, sha) == EntriesOf(crlf, sha)
    ensures Digested(EntriesOf(lf, sha)) == Digested(EntriesOf(crlf, sha))
  {
    forall k | 0 <= k < |lf| ensures EntryOf(lf[k], sha) == EntryOf(crlf[k], sha) {
      assert SameFile(lf[k], crlf[k]);
      if PassesGate(lf[k].content) { CheckoutsAgree(lf[k].content); }
    }
    assert EntriesOf(lf, sha) == EntriesOf(crlf, sha);
  }
}

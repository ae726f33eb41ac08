/** Bytes, the control characters that end lines, and well-formed UTF-8. */
module ByteText {

  newtype byte = x: int | 0 <= x < 256

  type Bytes = seq<byte>

  const NUL: byte := 0
  const LF: byte := 10
  const CR: byte := 13

  predicate Tail(b: byte) {
    0x80 <= b <= 0xBF
  }

  /** Length of the well-formed UTF-8 character at the head, 0 if there is none (section 4 of RFC 3629). */
  function CharLength(s: Bytes): (n: nat)
    ensures n <= |s| && n <= 4
  {
    if s == [] then 0
    else if s[0] <= 0x7F then 1
    else if |s| >= 2 && 0xC2 <= s[0] <= 0xDF && Tail(s[1]) then 2
    else if |s| >= 3 && ThreeByteLead(s[0], s[1]) && Tail(s[2]) then 3
    else if |s| >= 4 && FourByteLead(s[0], s[1]) && Tail(s[2]) && Tail(s[3]) then 4
    else 0
  }

  predicate ThreeByteLead(a: byte, b: byte) {
    || (a == 0xE0 && 0xA0 <= b <= 0xBF)
    || (0xE1 <= a <= 0xEC && Tail(b))
    || (a == 0xED && 0x80 <= b <= 0x9F)
    || (0xEE <= a <= 0xEF && Tail(b))
  }

  predicate FourByteLead(a: byte, b: byte) {
    || (a == 0xF0 && 0x90 <= b <= 0xBF)
    || (0xF1 <= a <= 0xF3 && Tail(b))
    || (a == 0xF4 && 0x80 <= b <= 0x8F)
  }

  predicate IsUtf8(s: Bytes) {
    s == [] || (CharLength(s) > 0 && IsUtf8(s[CharLength(s)..]))
  }

  /** A character is recognised by its own bytes, whatever follows. */
  lemma CharLengthLocal(s: Bytes, rest: Bytes)
    requires CharLength(s) > 0
    ensures CharLength(s[..CharLength(s)] + rest) == CharLength(s)
    ensures (s[..CharLength(s)] + rest)[CharLength(s)..] == rest
    ensures CharLength(s) > 1 ==> forall k :: 0 <= k < CharLength(s) ==> s[k] >= 0x80
  {
  }

  // ----- well-formed means encoded

  /** Unicode scalar values: the code points that are not surrogates. */
  type Scalar = c: nat | c < 0xD800 || 0xE000 <= c < 0x11_0000

  function Next(c: nat): byte {
    (0x80 + c % 0x40) as byte
  }

  /** The UTF-8 form of a Unicode scalar value (section 3 of RFC 3629): six bits in each byte after the first. */
  function EncodeChar(c: Scalar): Bytes {
    var l := c / 0x40;
    var m := l / 0x40;
    if c < 0x80 then [c as byte]
    else if c < 0x800 then [(0xC0 + l) as byte, Next(c)]
    else if c < 0x1_0000 then [(0xE0 + m) as byte, Next(l), Next(c)]
    else [(0xF0 + m / 0x40) as byte, Next(m), Next(l), Next(c)]
  }

  function EncodeText(cs: seq<Scalar>): Bytes {
    if cs == [] then [] else EncodeChar(cs[0]) + EncodeText(cs[1..])
  }

  lemma EncodedIsChar(c: Scalar, rest: Bytes)
    ensures CharLength(EncodeChar(c) + rest) == |EncodeChar(c)|
  {
    var s, l := EncodeChar(c) + rest, c / 0x40;
    var m := l / 0x40;
    if 0x800 <= c < 0x1_0000 {
      assert m == 0 ==> l >= 0x20;
      assert m == 13 ==> l < 0x360 || l >= 0x380;
      assert s[0] == (0xE0 + m) as byte && s[1] == Next(l) && s[2] == Next(c);
    } else if 0x1_0000 <= c {
      assert s[0] == (0xF0 + m / 0x40) as byte && s[1] == Next(m) && s[2] == Next(l) && s[3] == Next(c);
    }
  }

  lemma SixBits(high: nat, b: byte)
    requires Tail(b)
    ensures Next(high * 0x40 + (b as nat - 0x80)) == b && (high * 0x40 + (b as nat - 0x80)) / 0x40 == high
  {
  }

  lemma CharIsEncoded(s: Bytes) returns (c: Scalar)
    requires CharLength(s) > 0
    ensures EncodeChar(c) == s[..CharLength(s)]
  {
    var n := CharLength(s);
    if n == 1 {
      c := s[0] as nat;
    } else if n == 2 {
      var h := s[0] as nat - 0xC0;
      SixBits(h, s[1]);
      c := h * 0x40 + (s[1] as nat - 0x80);
    } else if n == 3 {
      c := ThreeBytes(s[0], s[1], s[2]);
    } else {
      c := FourBytes(s[0], s[1], s[2], s[3]);
    }
  }

  lemma ThreeBytes(a: byte, b: byte, d: byte) returns (c: Scalar)
    requires ThreeByteLead(a, b) && Tail(d)
    ensures EncodeChar(c) == [a, b, d]
  {
    var h := a as nat - 0xE0;
    SixBits(h, b);
    var m := h * 0x40 + (b as nat - 0x80);
    SixBits(m, d);
    c := m * 0x40 + (d as nat - 0x80);
  }

  lemma FourBytes(a: byte, b: byte, d: byte, e: byte) returns (c: Scalar)
    requires FourByteLead(a, b) && Tail(d) && Tail(e)
    ensures EncodeChar(c) == [a, b, d, e]
  {
    var h := a as nat - 0xF0;
    SixBits(h, b);
    var m := h * 0x40 + (b as nat - 0x80);
    SixBits(m, d);
    var l := m * 0x40 + (d as nat - 0x80);
    SixBits(l, e);
    c := l * 0x40 + (e as nat - 0x80);
  }

  /** The text gate lets through exactly the UTF-8 forms of texts. */
  lemma Utf8IsEncodedText(s: Bytes)
    ensures IsUtf8(s) <==> exists cs: seq<Scalar> :: EncodeText(cs) == s
  {
    if IsUtf8(s) { var cs := TextOf(s); }
    if cs: seq<Scalar> :| EncodeText(cs) == s { EncodedIsUtf8(cs); }
  }

  lemma {:induction false} EncodedIsUtf8(cs: seq<Scalar>)
    ensures IsUtf8(EncodeText(cs))
  {
    if cs != [] {
      var rest := EncodeText(cs[1..]);
      EncodedIsUtf8(cs[1..]);
      EncodedIsChar(cs[0], rest);
      assert (EncodeChar(cs[0]) + rest)[|EncodeChar(cs[0])|..] == rest;
    }
  }

  lemma CharThenRest(s: Bytes) returns (c: Scalar, rest: Bytes)
    requires IsUtf8(s) && s != []
    ensures s == EncodeChar(c) + rest && |rest| < |s| && IsUtf8(rest)
  {
    c := CharIsEncoded(s);
    rest := s[CharLength(s)..];
  }

  lemma {:induction false} TextOf(s: Bytes) returns (cs: seq<Scalar>)
    requires IsUtf8(s)
    ensures EncodeText(cs) == s
    decreases |s|
  {
    if s == [] {
      cs := [];
    } else {
      var c, rest := CharThenRest(s);
      var more := TextOf(rest);
      cs := [c] + more;
      assert cs[1..] == more;
    }
  }
}

/** Requirement keys of the traceability maps: single identifiers and ascending ranges. */
module RequirementKeys {
  import opened AsciiText
  import opened Options

  predicate IsDigit(c: char) { '0' <= c <= '9' }

  function Value(c: char): nat
    requires IsDigit(c)
  {
    c as int - '0' as int
  }

  function DigitChar(d: nat): char
    requires d < 10
  {
    ('0' as int + d) as char
  }

  predicate ThreeDigits(s: string) {
    |s| == 3 && IsDigit(s[0]) && IsDigit(s[1]) && IsDigit(s[2])
  }

  function Number(s: string): nat
    requires ThreeDigits(s)
  {
    Value(s[0]) * 100 + Value(s[1]) * 10 + Value(s[2])
  }

  function Three(n: nat): string
    requires n < 1000
  {
    [DigitChar(n / 100), DigitChar(n / 10 % 10), DigitChar(n % 10)]
  }

  lemma NumberOfThree(n: nat)
    requires n < 1000
    ensures ThreeDigits(Three(n)) && Number(Three(n)) == n
  {
    var tens := n / 10;
    assert n / 100 == tens / 10 && n == tens * 10 + n % 10 && tens == tens / 10 * 10 + tens % 10;
    assert Value(DigitChar(n / 100)) == n / 100 && Value(DigitChar(tens % 10)) == tens % 10;
  }

  lemma ThreeOfNumber(s: string)
    requires ThreeDigits(s)
    ensures Number(s) < 1000 && Three(Number(s)) == s
  {
    var a, b, c := Value(s[0]), Value(s[1]), Value(s[2]);
    assert Number(s) / 100 == a && Number(s) / 10 == a * 10 + b;
    assert (a * 10 + b) % 10 == b && Number(s) % 10 == c;
  }

  datatype Range = Range(prefix: string, low: nat, high: nat)

  const FUNCTIONAL := "REQ-F-"
  const OTHER := "REQ-NF-"

  function PrefixOf(key: string): Option<string> {
    if FUNCTIONAL <= key then Some(FUNCTIONAL) else if OTHER <= key then Some(OTHER) else None
  }

  /** The range a key denotes, if it has the form of one. */
  function RangeOf(key: string): Option<Range> {
    match PrefixOf(key)
    case None => None
    case Some(prefix) =>
      var p := |prefix|;
      if |key| == p + 8 && ThreeDigits(key[p..p + 3]) && key[p + 3..p + 5] == ".." && ThreeDigits(key[p + 5..])
      then Some(Range(prefix, Number(key[p..p + 3]), Number(key[p + 5..])))
      else None
  }

  predicate Descending(key: string) {
    RangeOf(key).Some? && RangeOf(key).value.low > RangeOf(key).value.high
  }

  lemma RangeIsSmall(key: string)
    requires RangeOf(key).Some?
    ensures RangeOf(key).value.low < 1000 && RangeOf(key).value.high < 1000
  {
    var p := |PrefixOf(key).value|;
    ThreeOfNumber(key[p..p + 3]);
    ThreeOfNumber(key[p + 5..]);
  }

  /** `expand`: the identifiers a key stands for; a descending range is an error. */
  function Expand(key: string): Option<set<string>> {
    match RangeOf(key)
    case None => Some({key})
    case Some(g) =>
      RangeIsSmall(key);
      if g.low > g.high then None else Some(set n | g.low <= n <= g.high :: g.prefix + Three(n))
  }

  /** Requirement by requirement: the identifier is the key itself, or has the range's prefix and a number within it. */
  predicate Covers(key: string, requirement: string) {
    match RangeOf(key)
    case None => requirement == key
    case Some(g) =>
      && g.prefix <= requirement
      && ThreeDigits(requirement[|g.prefix|..])
      && g.low <= Number(requirement[|g.prefix|..]) <= g.high
  }

  /** The expanded set holds exactly the covered identifiers, and no expansion is empty. */
  lemma ExpandMeans(key: string)
    ensures Expand(key).None? <==> Descending(key)
    ensures Expand(key).Some? ==> Expand(key).value != {} && forall r :: r in Expand(key).value <==> Covers(key, r)
    ensures Expand(key).None? ==> forall r :: !Covers(key, r)
  {
    if RangeOf(key).Some? {
      RangeIsSmall(key);
      var g := RangeOf(key).value;
      if g.low <= g.high {
        assert g.prefix + Three(g.low) in Expand(key).value;
        forall r ensures r in Expand(key).value <==> Covers(key, r) { MemberIffCovered(key, r); }
      }
    }
  }

  lemma MemberIffCovered(key: string, r: string)
    requires RangeOf(key).Some? && Expand(key).Some?
    ensures r in Expand(key).value <==> Covers(key, r)
  {
    var g := RangeOf(key).value;
    RangeIsSmall(key);
    if r in Expand(key).value {
      var n :| g.low <= n <= g.high && r == g.prefix + Three(n);
      NumberOfThree(n);
      assert r[|g.prefix|..] == Three(n);
    }
    if Covers(key, r) {
      var digits := r[|g.prefix|..];
      ThreeOfNumber(digits);
      assert r == g.prefix + Three(Number(digits));
    }
  }

  // ----- keys by their text

  lemma DigitIs(d: nat)
    requires d < 10
    ensures DigitChar(d) == DIGITS[d]
  {
    assert DIGITS[0] == '0' && DIGITS[1] == '1' && DIGITS[2] == '2' && DIGITS[3] == '3' && DIGITS[4] == '4';
    assert DIGITS[5] == '5' && DIGITS[6] == '6' && DIGITS[7] == '7' && DIGITS[8] == '8' && DIGITS[9] == '9';
  }

  /** Three digits, hundreds first. */
  lemma ThreeIs(hundreds: nat, tens: nat, ones: nat)
    requires hundreds < 10 && tens < 10 && ones < 10
    ensures Three(100 * hundreds + 10 * tens + ones) == [DIGITS[hundreds], DIGITS[tens], DIGITS[ones]]
  {
    var n := 100 * hundreds + 10 * tens + ones;
    assert n / 100 == hundreds && n / 10 == 10 * hundreds + tens && n % 10 == ones;
    assert (10 * hundreds + tens) % 10 == tens;
    DigitIs(hundreds);
    DigitIs(tens);
    DigitIs(ones);
  }

  /** The text of a range key. */
  function RangeText(prefix: string, low: nat, high: nat): string
    requires low < 1000 && high < 1000
  {
    prefix + Three(low) + ".." + Three(high)
  }

  lemma PrefixFound(prefix: string, rest: string)
    requires prefix == FUNCTIONAL || prefix == OTHER
    ensures PrefixOf(prefix + rest) == Some(prefix)
  {
    assert FUNCTIONAL[4] == 'F' && OTHER[4] == 'N';
    assert (prefix + rest)[4] == prefix[4];
  }

  lemma RangeRead(prefix: string, low: nat, high: nat)
    requires (prefix == FUNCTIONAL || prefix == OTHER) && low < 1000 && high < 1000
    ensures RangeOf(RangeText(prefix, low, high)) == Some(Range(prefix, low, high))
  {
    var key, p := RangeText(prefix, low, high), |prefix|;
    PrefixFound(prefix, Three(low) + ".." + Three(high));
    assert key == prefix + (Three(low) + ".." + Three(high));
    NumberOfThree(low);
    NumberOfThree(high);
    assert key[p..p + 3] == Three(low) && key[p + 3..p + 5] == ".." && key[p + 5..] == Three(high);
  }

  /** A range key from `low` to `high` stands for the requirements with the numbers from `low` to `high`, in three
      digits each; where the first number is the larger one it is an error. */
  lemma ExpandRange(prefix: string, low: nat, high: nat)
    requires (prefix == FUNCTIONAL || prefix == OTHER) && low < 1000 && high < 1000
    ensures Expand(RangeText(prefix, low, high)) ==
            if low > high then None else Some(set n | low <= n <= high :: prefix + Three(n))
  {
    RangeRead(prefix, low, high);
  }

  /** The key is the text of a range. */
  ghost predicate IsRangeText(key: string) {
    exists prefix, low: nat, high: nat ::
      (prefix == FUNCTIONAL || prefix == OTHER) && low < 1000 && high < 1000 && key == RangeText(prefix, low, high)
  }

  lemma RangeIsText(key: string)
    requires RangeOf(key).Some?
    ensures IsRangeText(key)
  {
    var prefix, p := PrefixOf(key).value, |PrefixOf(key).value|;
    var low, high := key[p..p + 3], key[p + 5..];
    ThreeOfNumber(low);
    ThreeOfNumber(high);
    assert key == prefix + low + ".." + high;
    assert key == RangeText(prefix, Number(low), Number(high));
  }

  /** Every other key stands for itself. */
  lemma ExpandOther(key: string)
    requires !IsRangeText(key)
    ensures Expand(key) == Some({key})
  {
    if RangeOf(key).Some? { RangeIsText(key); }
  }
}

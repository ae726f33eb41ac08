/**
 The bounded line framing of the local transport: the client's chunked reader and the server's
 frame check, over everything the peer sends before it closes.
 */
module LineReader {

  import opened ByteText

  const MAX_REQUEST_BYTES: nat := 1024 * 1024
  const CHUNK_BYTES: nat := 65536
  const NEWLINE: byte := 10

  datatype Outcome = Frame(line: seq<byte>) | Invalid

  /** How many bytes the peer makes available at once, at each position of its stream. */
  type Chunking = nat -> nat

  ghost predicate NonEmpty(chunking: Chunking) {
    forall p :: chunking(p) > 0
  }

  function Min(a: nat, b: nat): nat {
    if a < b then a else b
  }

  class Connection {
    const stream: seq<byte>
    const chunking: Chunking
    var position: nat

    ghost predicate Valid()
      reads this
    {
      position <= |stream| && NonEmpty(chunking)
    }

    constructor (stream: seq<byte>, chunking: Chunking)
      requires NonEmpty(chunking)
      ensures Valid() && position == 0 && this.stream == stream && this.chunking == chunking
    {
      this.stream, this.chunking, position := stream, chunking, 0;
    }

    /** `recv`: at least one byte and at most `limit`, or nothing at the end of the stream. */
    method Receive(limit: nat) returns (part: seq<byte>)
      requires Valid() && limit >= 1
      modifies this`position
      ensures Valid()
      ensures position == NextPosition(stream, chunking, limit, old(position))
      ensures part == stream[old(position)..position]
    {
      var next := NextPosition(stream, chunking, limit, position);
      part := stream[position..next];
      position := next;
    }
  }

  function NextPosition(stream: seq<byte>, chunking: Chunking, limit: nat, p: nat): (q: nat)
    requires p <= |stream|
    ensures p <= q <= |stream| && q - p <= limit
    ensures limit > 0 && chunking(p) > 0 && p < |stream| ==> p < q
  {
    p + Min(limit, Min(chunking(p), |stream| - p))
  }

  /** How many bytes the reader asks for when it has `p` of them. */
  function Request(p: nat): nat {
    if p <= MAX_REQUEST_BYTES then Min(CHUNK_BYTES, MAX_REQUEST_BYTES + 1 - p) else 0
  }

  /** Where the reader stops: after the chunk that brought a newline, at the end of the stream, or past the limit. */
  ghost function StopAt(stream: seq<byte>, chunking: Chunking, p: nat): (e: nat)
    requires p <= |stream| && NonEmpty(chunking)
    ensures p <= e <= |stream| && (p <= MAX_REQUEST_BYTES + 1 ==> e <= MAX_REQUEST_BYTES + 1)
    decreases |stream| - p
  {
    if p > MAX_REQUEST_BYTES then p else
    var q := NextPosition(stream, chunking, Request(p), p);
    if q == p || NEWLINE in stream[p..q] then q else StopAt(stream, chunking, q)
  }

  predicate EndsLine(bytes: seq<byte>) {
    bytes != [] && bytes[|bytes| - 1] == NEWLINE
  }

  /** The check after the loop. */
  function Judge(bytes: seq<byte>): Outcome {
    if |bytes| > MAX_REQUEST_BYTES || !EndsLine(bytes) then Invalid else Frame(bytes)
  }

  ghost function ClientOutcome(stream: seq<byte>, chunking: Chunking): Outcome
    requires NonEmpty(chunking)
  {
    Judge(stream[..StopAt(stream, chunking, 0)])
  }

  /** The client's reader.  It never asks for less than one byte and never holds more than the limit plus one. */
  method ReadLine(connection: Connection) returns (outcome: Outcome)
    requires connection.Valid() && connection.position == 0
    modifies connection`position
    ensures outcome == ClientOutcome(connection.stream, connection.chunking)
    ensures connection.position <= MAX_REQUEST_BYTES + 1
  {
    var bytes: seq<byte> := [];
    var stream, chunking := connection.stream, connection.chunking;
    var done := false;
    while !done && |bytes| <= MAX_REQUEST_BYTES
      invariant connection.Valid() && bytes == stream[..connection.position]
      invariant |bytes| <= MAX_REQUEST_BYTES + 1
      invariant if done then connection.position == StopAt(stream, chunking, 0)
                else StopAt(stream, chunking, connection.position) == StopAt(stream, chunking, 0)
      decreases !done, |stream| - connection.position
    {
      ghost var before := connection.position;
      var part := connection.Receive(Request(|bytes|));
      assert connection.position == NextPosition(stream, chunking, Request(before), before);
      if part == [] {
        done := true;
      } else {
        assert bytes + part == stream[..connection.position];
        bytes := bytes + part;
        if NEWLINE in part {
          done := true;
        }
      }
    }
    outcome := Judge(bytes);
  }

  // ----- what the reader promises about lines

  /** Index just after the first newline, or none. */
  function LineEnd(stream: seq<byte>): (e: nat)
    ensures e <= |stream|
    ensures e == 0 <==> NEWLINE !in stream
    ensures e > 0 ==> stream[e - 1] == NEWLINE && NEWLINE !in stream[..e - 1]
  {
    if stream == [] then 0
    else if stream[0] == NEWLINE then 1
    else
      var rest := LineEnd(stream[1..]);
      if rest == 0 then 0 else
      assert stream[..rest] == [stream[0]] + stream[1..][..rest - 1];
      rest + 1
  }

  lemma {:induction false} StopsAfterLine(stream: seq<byte>, chunking: Chunking, p: nat)
    requires NonEmpty(chunking) && p <= |stream| && p <= MAX_REQUEST_BYTES + 1 && NEWLINE !in stream[..p]
    ensures
      var e, n := StopAt(stream, chunking, p), LineEnd(stream);
      if n == 0 || n > MAX_REQUEST_BYTES + 1
      then NEWLINE !in stream[..e] && (e == |stream| || e == MAX_REQUEST_BYTES + 1)
      else n <= e
    decreases |stream| - p
  {
    var n := LineEnd(stream);
    if p <= MAX_REQUEST_BYTES {
      var q := NextPosition(stream, chunking, Request(p), p);
      if NEWLINE in stream[p..q] {
        var k :| p <= k < q && stream[k] == NEWLINE;
        assert forall i :: 0 <= i < n - 1 ==> stream[i] == stream[..n - 1][i];
      } else {
        assert stream[..q] == stream[..p] + stream[p..q];
        if q > p { StopsAfterLine(stream, chunking, q); }
      }
    }
    assert forall i :: 0 <= i < p ==> stream[i] == stream[..p][i];
  }

  /** The server's side: `readline` with the same bound, then the same three conditions. */
  function ServerOutcome(stream: seq<byte>): Outcome {
    var n := LineEnd(stream);
    var line := stream[..Min(if n == 0 then |stream| else n, MAX_REQUEST_BYTES + 1)];
    if line == [] || |line| > MAX_REQUEST_BYTES || !EndsLine(line) then Invalid else Frame(line)
  }

  lemma ServerAcceptsLines(stream: seq<byte>)
    ensures
      var n := LineEnd(stream);
      ServerOutcome(stream) == if 0 < n <= MAX_REQUEST_BYTES then Frame(stream[..n]) else Invalid
  {
    var n := LineEnd(stream);
    if n == 0 && stream != [] {
      var line := stream[..Min(|stream|, MAX_REQUEST_BYTES + 1)];
      assert line[|line| - 1] in stream;
    }
  }

  /**
   A single newline-terminated line, however it is cut into non-empty chunks, comes back exactly
   when it fits the limit and is rejected otherwise; so does a stream without a newline; and the
   server's frame check decides the same.
   */
  lemma LineComesBackWhole(stream: seq<byte>, chunking: Chunking)
    requires NonEmpty(chunking)
    requires LineEnd(stream) == |stream| || LineEnd(stream) == 0 || LineEnd(stream) > MAX_REQUEST_BYTES
    ensures ClientOutcome(stream, chunking) ==
            if 0 < LineEnd(stream) <= MAX_REQUEST_BYTES then Frame(stream) else Invalid
    ensures ClientOutcome(stream, chunking) == ServerOutcome(stream)
  {
    StopsAfterLine(stream, chunking, 0);
    JudgePrefix(stream, StopAt(stream, chunking, 0));
    ServerAcceptsLines(stream);
    assert stream[..|stream|] == stream;
  }

  lemma JudgePrefix(stream: seq<byte>, e: nat)
    requires e <= |stream| && e <= MAX_REQUEST_BYTES + 1
    requires
      var n := LineEnd(stream);
      if n == 0 || n > MAX_REQUEST_BYTES + 1 then NEWLINE !in stream[..e] else n <= e
    requires LineEnd(stream) == |stream| || LineEnd(stream) == 0 || LineEnd(stream) > MAX_REQUEST_BYTES
    ensures Judge(stream[..e]) == if 0 < LineEnd(stream) <= MAX_REQUEST_BYTES then Frame(stream) else Invalid
  {
    if 0 < LineEnd(stream) <= MAX_REQUEST_BYTES {
      assert stream[..e] == stream;
    } else {
      assert EndsLine(stream[..e]) ==> NEWLINE in stream[..e];
    }
  }

  // ----- when the cut matters

  function Bytewise(): Chunking {
    (p: nat) => 1
  }

  lemma BytewiseNext(stream: seq<byte>, p: nat)
    requires p < |stream| && p <= MAX_REQUEST_BYTES
    ensures NextPosition(stream, Bytewise(), Request(p), p) == p + 1
  {
    assert Request(p) >= 1 && Bytewise()(p) == 1;
  }

  lemma {:induction false} BytewiseStop(stream: seq<byte>, p: nat)
    requires LineEnd(stream) > p && LineEnd(stream) <= MAX_REQUEST_BYTES
    ensures NonEmpty(Bytewise()) && StopAt(stream, Bytewise(), p) == LineEnd(stream)
    decreases |stream| - p
  {
    var n := LineEnd(stream);
    var q := NextPosition(stream, Bytewise(), Request(p), p);
    BytewiseNext(stream, p);
    assert stream[p..q] == [stream[p]];
    if q < n {
      assert stream[p] == stream[..n - 1][p];
      BytewiseStop(stream, q);
    }
  }

  /** Delivers everything before the newline, then the newline together with the byte after it. */
  function TwoAtNewline(n: nat): Chunking {
    (p: nat) => if p + 1 < n then n - 1 - p else 2
  }

  lemma {:induction false} LateStop(stream: seq<byte>, p: nat)
    requires p < LineEnd(stream) <= MAX_REQUEST_BYTES && LineEnd(stream) < |stream|
    ensures NonEmpty(TwoAtNewline(LineEnd(stream)))
    ensures StopAt(stream, TwoAtNewline(LineEnd(stream)), p) == LineEnd(stream) + 1
    decreases |stream| - p
  {
    var n := LineEnd(stream);
    var q := NextPosition(stream, TwoAtNewline(n), Request(p), p);
    if p + 1 < n {
      assert q < n;
      assert NEWLINE !in stream[p..q] by {
        assert stream[p..q] == stream[..n - 1][p..q];
      }
      LateStop(stream, q);
    } else {
      assert q == n + 1 && stream[p..q][0] == NEWLINE;
    }
  }

  /** With bytes after a line that fits, two cuts of the same stream end differently. */
  lemma TwoCutsDiffer(stream: seq<byte>) returns (a: Chunking, b: Chunking)
    requires 0 < LineEnd(stream) <= MAX_REQUEST_BYTES && LineEnd(stream) < |stream|
    ensures NonEmpty(a) && NonEmpty(b) && ClientOutcome(stream, a) != ClientOutcome(stream, b)
  {
    a, b := Bytewise(), TwoAtNewline(LineEnd(stream));
    BytewiseStop(stream, 0);
    LateStop(stream, 0);
    assert |stream[..LineEnd(stream)]| != |stream[..LineEnd(stream) + 1]|;
  }

  ghost predicate CutIrrelevant(stream: seq<byte>) {
    forall a: Chunking, b: Chunking :: NonEmpty(a) && NonEmpty(b) ==>
        ClientOutcome(stream, a) == ClientOutcome(stream, b)
  }

  /**
   Exactly when the outcome does not depend on the chunks: there is no newline within the limit,
   or nothing follows the first one.
   */
  lemma CutMattersOnlyAfterLine(stream: seq<byte>)
    ensures CutIrrelevant(stream)
       <==> (LineEnd(stream) == 0 || LineEnd(stream) > MAX_REQUEST_BYTES || LineEnd(stream) == |stream|)
  {
    var n := LineEnd(stream);
    if n == 0 || n > MAX_REQUEST_BYTES || n == |stream| {
      forall a: Chunking, b: Chunking | NonEmpty(a) && NonEmpty(b)
        ensures ClientOutcome(stream, a) == ClientOutcome(stream, b)
      {
        LineComesBackWhole(stream, a);
        LineComesBackWhole(stream, b);
      }
    } else {
      var a, b := TwoCutsDiffer(stream);
    }
  }
}

/**
 The chunked coding as a function of the bytes on the wire: how writes are framed, how lines
 and sizes are read, and what the reader makes of any input.
 */
module Chunked {
  import opened Options
  import opened Bytes

  const MAX_LINE: nat := 32768
  const ULONG_MAX: nat := 0xFFFF_FFFF_FFFF_FFFF

  // ---------- Sizes in hexadecimal ----------

  function Digit(n: nat): byte
    requires n < 16
  {
    if n < 10 then (48 + n) as byte else (87 + n) as byte
  }

  function DigitValue(b: byte): Option<nat> {
    if 48 <= b <= 57 then Some(b as nat - 48)
    else if 97 <= b <= 102 then Some(b as nat - 87)
    else if 65 <= b <= 70 then Some(b as nat - 55)
    else None
  }

  function Hex(n: nat): (s: seq<byte>)
    ensures |s| > 0
  {
    if n < 16 then [Digit(n)] else Hex(n / 16) + [Digit(n % 16)]
  }

  predicate AllDigits(s: seq<byte>) {
    forall i :: 0 <= i < |s| ==> DigitValue(s[i]).Some?
  }

  function Value(s: seq<byte>): nat
    requires AllDigits(s)
    decreases |s|
  {
    if s == [] then 0 else Value(s[..|s| - 1]) * 16 + DigitValue(s[|s| - 1]).value
  }

  /** How many digits stand at i. */
  function DigitCount(s: seq<byte>, i: nat): (n: nat)
    ensures i <= |s| ==> i + n <= |s| && AllDigits(s[i..i + n])
    decreases |s| - i
  {
    if i < |s| && DigitValue(s[i]).Some? then
      var n := DigitCount(s, i + 1);
      assert s[i..i + 1 + n] == [s[i]] + s[i + 1..i + 1 + n];
      1 + n
    else 0
  }

  predicate IsSpace(b: byte) {
    b == 32 || 9 <= b <= 13
  }

  function Spaces(s: seq<byte>, i: nat): (n: nat)
    requires i <= |s|
    ensures i <= n <= |s|
    decreases |s| - i
  {
    if i < |s| && IsSpace(s[i]) then Spaces(s, i + 1) else i
  }

  predicate IsSigned(s: seq<byte>, i: nat) {
    i < |s| && (s[i] == 43 || s[i] == 45)
  }

  /** Where the digits are looked for: behind blanks, a sign, and a prefix that a digit must follow. */
  function DigitsAt(s: seq<byte>): nat {
    var start := Spaces(s, 0);
    var i := if IsSigned(s, start) then start + 1 else start;
    if i + 2 < |s| && s[i] == 48 && (s[i + 1] == 120 || s[i + 1] == 88) && DigitValue(s[i + 2]).Some? then i + 2 else i
  }

  /** strtoul in base 16, with the range of an unsigned long; None without any digit. */
  function Strtoul(s: seq<byte>): Option<nat> {
    var at, start := DigitsAt(s), Spaces(s, 0);
    var n := DigitCount(s, at);
    if n == 0 then None
    else
      var v := Value(s[at..at + n]);
      if v > ULONG_MAX then Some(ULONG_MAX)
      else if IsSigned(s, start) && s[start] == 45 && v > 0 then Some(ULONG_MAX + 1 - v)
      else Some(v)
  }

  // ---------- The writer ----------

  function Chunk(payload: seq<byte>): seq<byte> {
    Hex(|payload|) + CRLF + payload + CRLF
  }

  const LAST: seq<byte> := [48, CR, LF, CR, LF]

  /** The frames of a sequence of writes; an empty write leaves none. */
  function Frames(writes: seq<seq<byte>>): seq<byte>
    decreases |writes|
  {
    if writes == [] then [] else (if writes[0] == [] then [] else Chunk(writes[0])) + Frames(writes[1..])
  }

  function Concat(writes: seq<seq<byte>>): seq<byte>
    decreases |writes|
  {
    if writes == [] then [] else writes[0] + Concat(writes[1..])
  }

  // ---------- What a provider does with the sink ----------

  datatype SinkOp = Put(d: seq<byte>) | Finish

  function WireOf(op: SinkOp): seq<byte> {
    match op
    case Put(d) => if d == [] then [] else Chunk(d)
    case Finish => LAST
  }

  function Wire(ops: seq<SinkOp>): seq<byte>
    decreases |ops|
  {
    if ops == [] then [] else WireOf(ops[0]) + Wire(ops[1..])
  }

  function Puts(ops: seq<SinkOp>): seq<seq<byte>>
    decreases |ops|
  {
    if ops == [] then [] else (match ops[0] case Put(d) => [d] case Finish => []) + Puts(ops[1..])
  }

  /** The flag that keeps the provider being called: the last operation wrote something, or there was none. */
  predicate DataAvailable(ops: seq<SinkOp>) {
    ops != [] ==> ops[|ops| - 1].Put? && ops[|ops| - 1].d != []
  }

  predicate NothingWritten(ops: seq<SinkOp>)
    decreases |ops|
  {
    ops != [] ==> ops[0] == Put([]) && NothingWritten(ops[1..])
  }

  /** Reports that it is done once, and writes nothing but empty pieces afterwards. */
  predicate Finishes(ops: seq<SinkOp>)
    decreases |ops|
  {
    ops != [] && if ops[0].Finish? then NothingWritten(ops[1..]) else Finishes(ops[1..])
  }

  lemma {:induction false} WireLength(ops: seq<SinkOp>)
    ensures |Wire(ops)| >= |Frames(Puts(ops))|
    ensures (exists op :: op in ops && op.Finish?) ==> |Wire(ops)| >= |Frames(Puts(ops))| + |LAST|
    ensures !(exists op :: op in ops && op.Finish?) ==> Wire(ops) == Frames(Puts(ops))
    decreases |ops|
  {
    hide Chunk;
    if ops != [] {
      WireLength(ops[1..]);
      FirstPut(ops);
      assert forall op :: op in ops <==> op == ops[0] || op in ops[1..];
    }
  }

  lemma FirstPut(ops: seq<SinkOp>)
    requires ops != []
    ensures ops[0].Put? ==> Puts(ops) == [ops[0].d] + Puts(ops[1..])
    ensures ops[0].Put? ==> Frames(Puts(ops)) == WireOf(ops[0]) + Frames(Puts(ops[1..]))
    ensures ops[0].Finish? ==> Puts(ops) == Puts(ops[1..])
  {
    hide Chunk;
    if ops[0].Put? {
      assert ([ops[0].d] + Puts(ops[1..]))[1..] == Puts(ops[1..]);
    } else {
      assert [] + Puts(ops[1..]) == Puts(ops[1..]);
    }
  }

  lemma {:induction false} NothingWrittenWire(ops: seq<SinkOp>)
    requires NothingWritten(ops)
    ensures Wire(ops) == [] && Frames(Puts(ops)) == []
    decreases |ops|
  {
    hide Chunk;
    if ops != [] {
      NothingWrittenWire(ops[1..]);
      FirstPut(ops);
    }
  }

  /** Without a report, nothing on the wire means that nothing was written. */
  lemma {:induction false} NoFramesNothingWritten(ops: seq<SinkOp>)
    requires !(exists op :: op in ops && op.Finish?) && Frames(Puts(ops)) == []
    ensures NothingWritten(ops)
    decreases |ops|
  {
    hide Hex;
    if ops != [] {
      FirstPut(ops);
      assert ops[0] in ops && forall op :: op in ops[1..] ==> op in ops;
      NoFramesNothingWritten(ops[1..]);
    }
  }

  /** Frames do not start with the digit the terminator starts with. */
  lemma {:induction false} FramesStart(writes: seq<seq<byte>>)
    ensures Frames(writes) != [] ==> Frames(writes)[0] != 48
    decreases |writes|
  {
    if writes != [] {
      if writes[0] == [] {
        FramesStart(writes[1..]);
      } else {
        HexDigits(|writes[0]|);
        assert Frames(writes)[0] == Hex(|writes[0]|)[0];
      }
    }
  }

  /** The wire holds the frames of all writes and ends in the terminator exactly when the provider finishes properly. */
  lemma {:induction false} TerminatedExactly(ops: seq<SinkOp>)
    ensures Wire(ops) == Frames(Puts(ops)) + LAST <==> Finishes(ops)
    decreases |ops|
  {
    hide Chunk, Wire, Puts, Frames, NothingWritten;
    if ops == [] {
      NothingOnWire();
    } else if ops[0].Put? {
      TerminatedExactly(ops[1..]);
      WireFirst(ops);
      FirstPut(ops);
      SamePrefix(WireOf(ops[0]), Wire(ops[1..]), Frames(Puts(ops[1..])) + LAST);
      RightNested(WireOf(ops[0]), Frames(Puts(ops[1..])), LAST);
    } else {
      FinishFirst(ops);
    }
  }

  lemma NothingOnWire()
    ensures Wire([]) == [] && Frames(Puts([])) == []
  {
  }

  lemma WireFirst(ops: seq<SinkOp>)
    requires ops != []
    ensures Wire(ops) == WireOf(ops[0]) + Wire(ops[1..])
  {
  }

  lemma SamePrefix(a: seq<byte>, c: seq<byte>, d: seq<byte>)
    ensures a + c == a + d <==> c == d
  {
    if a + c == a + d {
      assert c == (a + c)[|a|..] == (a + d)[|a|..] == d;
    }
  }

  lemma FinishFirst(ops: seq<SinkOp>)
    requires ops != [] && ops[0].Finish?
    ensures Wire(ops) == Frames(Puts(ops)) + LAST <==> NothingWritten(ops[1..])
  {
    hide Chunk, Wire, Puts, Frames, NothingWritten;
    var rest := ops[1..];
    var frames := Frames(Puts(rest));
    WireFirst(ops);
    FirstPut(ops);
    WireLength(rest);
    if NothingWritten(rest) {
      NothingWrittenWire(rest);
      assert Wire(ops) == LAST == frames + LAST;
    } else if Wire(ops) == frames + LAST {
      assert |Wire(rest)| == |frames|;
      FramesStart(Puts(rest));
      assert (frames + LAST)[0] == 48;
      NoFramesNothingWritten(rest);
    }
  }

  /** A report, or a single empty write, ends the calls; after the latter the terminator is missing. */
  lemma EmptyWriteEndsWithoutTerminator()
    ensures !DataAvailable([Put([])]) && Wire([Put([])]) == [] && !Finishes([Put([])])
  {
    assert [Put([])][1..] == [];
    WireFirst([Put([])]);
    NothingOnWire();
  }

  // ---------- The reader ----------

  /**
   The length of the line at pos: through the first CRLF or to the end of the input; None at
   the end or when too long.
   */
  function LineLength(data: seq<byte>, pos: nat, n: nat): (r: Option<nat>)
    requires pos + n <= |data|
    ensures r.Some? ==> 0 < r.value && n <= r.value && pos + r.value <= |data|
    decreases |data| - n
  {
    if n >= MAX_LINE then None
    else if pos + n == |data| then if n == 0 then None else Some(n)
    else if n > 0 && data[pos + n - 1] == CR && data[pos + n] == LF then Some(n + 1)
    else LineLength(data, pos, n + 1)
  }

  function Line(data: seq<byte>, pos: nat): Option<seq<byte>>
    requires pos <= |data|
  {
    match LineLength(data, pos, 0)
    case None => None
    case Some(n) => Some(data[pos..pos + n])
  }

  datatype Verdict = Success | Error | PayloadTooLarge

  /** How reading ends, the bytes handed over, and on success the position reached. */
  datatype Outcome = Outcome(verdict: Verdict, body: seq<byte>, pos: nat)

  function Failed(v: Verdict, body: seq<byte>): Outcome {
    Outcome(v, body, 0)
  }

  const MAX_HEADER: nat := 8192

  /** Behind the last chunk: lines up to an empty one, or nothing at all. */
  function Trailers(data: seq<byte>, pos: nat, body: seq<byte>): Outcome
    requires pos <= |data|
    decreases |data| - pos
  {
    match Line(data, pos)
    case None => Failed(Error, body)
    case Some(line) =>
      if line == CRLF then Outcome(Success, body, pos + 2)
      else if |line| > MAX_HEADER then Failed(Error, body)
      else Trailers(data, pos + |line|, body)
  }

  /** How far a failed attempt at a line reads. */
  function Skipped(data: seq<byte>, pos: nat): nat {
    if pos + MAX_LINE < |data| then pos + MAX_LINE else |data|
  }

  function AfterLast(data: seq<byte>, pos: nat, body: seq<byte>): Outcome
    requires pos <= |data|
  {
    if Line(data, pos).None? then Outcome(Success, body, Skipped(data, pos)) else Trailers(data, pos, body)
  }

  /** Reading from a chunk size on, with the bytes handed over so far. */
  function Decode(data: seq<byte>, pos: nat, body: seq<byte>, limit: nat): Outcome
    requires pos <= |data|
    decreases |data| - pos
  {
    match Line(data, pos)
    case None => Failed(Error, body)
    case Some(line) =>
      var size := Strtoul(line);
      if size.None? || size.value == ULONG_MAX then Failed(Error, body)
      else if size.value == 0 then AfterLast(data, pos + |line|, body)
      else if |body| > limit || limit - |body| < size.value then Failed(PayloadTooLarge, body)
      else
        var from := pos + |line|;
        var to := from + size.value;
        if to > |data| then Failed(Error, body + data[from..])
        else if Line(data, to) != Some(CRLF) then Failed(Error, body + data[from..to])
        else Decode(data, to + 2, body + data[from..to], limit)
  }

  // ---------- Printed sizes ----------

  lemma {:induction false} HexDigits(n: nat)
    ensures AllDigits(Hex(n)) && Value(Hex(n)) == n
    ensures forall i :: 0 <= i < |Hex(n)| ==> Hex(n)[i] != CR
    ensures n > 0 ==> Hex(n)[0] != 48
    ensures Hex(n)[0] == 48 || 49 <= Hex(n)[0] <= 57 || 97 <= Hex(n)[0] <= 102
  {
    if n >= 16 {
      HexDigits(n / 16);
      var s := Hex(n);
      assert s[..|s| - 1] == Hex(n / 16);
    }
  }

  lemma {:induction false} HexLength(n: nat, k: nat)
    requires n < Power16(k) && k > 0
    ensures |Hex(n)| <= k
    decreases k
  {
    if n >= 16 {
      HexLength(n / 16, k - 1);
    }
  }

  function Power16(k: nat): nat {
    if k == 0 then 1 else 16 * Power16(k - 1)
  }

  lemma {:induction false} CountDigits(s: seq<byte>, rest: seq<byte>, i: nat)
    requires i <= |s| && AllDigits(s) && (rest == [] || DigitValue(rest[0]).None?)
    ensures DigitCount(s + rest, i) == |s| - i
    decreases |s| - i
  {
    if i < |s| {
      CountDigits(s, rest, i + 1);
    }
  }

  lemma SizeComesBack(n: nat)
    requires n < ULONG_MAX
    ensures Strtoul(Hex(n) + CRLF) == Some(n)
  {
    HexDigits(n);
    CountDigits(Hex(n), CRLF, 0);
    var s := Hex(n) + CRLF;
    assert s[0] == Hex(n)[0] && s[0..|Hex(n)|] == Hex(n);
    assert Spaces(s, 0) == 0 && !IsSigned(s, 0);
    assert n == 0 ==> s[1] == CR;
    assert DigitsAt(s) == 0;
    hide Hex, Value, DigitCount, Spaces, DigitValue, DigitsAt, IsSigned;
  }

  lemma RightNested(a: seq<byte>, c: seq<byte>, d: seq<byte>)
    ensures a + c + d == a + (c + d)
  {
  }
}

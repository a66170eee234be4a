/**
 What the reader of the chunked coding makes of a stream, against the form a stream may have:
 chunks behind size lines in any spelling, a last line of size zero, and trailer lines.
 */
module ChunkedReading {
  import opened Options
  import opened Bytes
  import opened Chunked
  import opened ChunkSizes

  predicate At(data: seq<byte>, pos: nat, s: seq<byte>) {
    pos + |s| <= |data| && data[pos..pos + |s|] == s
  }

  lemma AtInParts(data: seq<byte>, pos: nat, a: seq<byte>, c: seq<byte>)
    ensures At(data, pos, a + c) <==> At(data, pos, a) && At(data, pos + |a|, c)
  {
    if pos + |a + c| <= |data| {
      var part := data[pos..pos + |a + c|];
      assert data[pos..pos + |a|] == part[..|a|];
      assert data[pos + |a|..pos + |a| + |c|] == part[|a|..];
      assert part == part[..|a|] + part[|a|..];
      assert part == a + c ==> part[..|a|] == a && part[|a|..] == c;
    }
  }

  // ---------- Lines ----------

  predicate EndsLine(l: seq<byte>) {
    |l| >= 2 && l[|l| - 2] == CR && l[|l| - 1] == LF
  }

  predicate BreakAt(s: seq<byte>, i: nat) {
    i + 1 < |s| && s[i] == CR && s[i + 1] == LF
  }

  predicate NoEndInside(l: seq<byte>) {
    forall i: nat :: i + 2 < |l| ==> !BreakAt(l, i)
  }

  /** Through the first line break, or to the end of the input, and not too long. */
  predicate IsLine(data: seq<byte>, pos: nat, l: seq<byte>) {
    && l != [] && At(data, pos, l) && NoEndInside(l)
    && (if EndsLine(l) then |l| <= MAX_LINE else pos + |l| == |data| && |l| < MAX_LINE)
  }

  lemma {:induction false} LineIsFound(data: seq<byte>, pos: nat, l: seq<byte>, n: nat)
    requires IsLine(data, pos, l) && n <= if EndsLine(l) then |l| - 1 else |l|
    ensures LineLength(data, pos, n) == Some(|l|)
    decreases |l| - n
  {
    SameBytes(data, pos, l);
    if n < |l| && !(n > 0 && l[n - 1] == CR && l[n] == LF) {
      LineIsFound(data, pos, l, n + 1);
    } else if 0 < n < |l| {
      assert BreakAt(l, n - 1);
    }
  }

  lemma SameBytes(data: seq<byte>, pos: nat, l: seq<byte>)
    requires At(data, pos, l)
    ensures forall i :: 0 <= i < |l| ==> l[i] == data[pos + i]
    ensures forall i: nat :: i + 1 < |l| ==> (BreakAt(l, i) <==> BreakAt(data, pos + i))
  {
    forall i | 0 <= i < |l| ensures l[i] == data[pos + i] {
      assert data[pos..pos + |l|][i] == data[pos + i];
    }
  }

  /** The first n bytes hold no line break. */
  predicate NoBreakBefore(data: seq<byte>, pos: nat, n: nat) {
    forall i: nat :: pos <= i && i + 1 < pos + n ==> !BreakAt(data, i)
  }

  lemma {:induction false} FoundIsLine(data: seq<byte>, pos: nat, n: nat)
    requires pos + n <= |data| && NoBreakBefore(data, pos, n) && LineLength(data, pos, n).Some?
    ensures IsLine(data, pos, data[pos..pos + LineLength(data, pos, n).value])
    decreases |data| - n
  {
    if pos + n == |data| || (n > 0 && data[pos + n - 1] == CR && data[pos + n] == LF) {
      var k := LineLength(data, pos, n).value;
      SameBytes(data, pos, data[pos..pos + k]);
    } else {
      FoundIsLine(data, pos, n + 1);
    }
  }

  lemma LineExactly(data: seq<byte>, pos: nat, l: seq<byte>)
    requires pos <= |data|
    ensures Line(data, pos) == Some(l) <==> IsLine(data, pos, l)
  {
    hide IsLine, LineLength;
    if Line(data, pos) == Some(l) {
      FoundIsLine(data, pos, 0);
    }
    if IsLine(data, pos, l) {
      LineIsFound(data, pos, l, 0);
      IsLineAt(data, pos, l);
    }
  }

  lemma IsLineAt(data: seq<byte>, pos: nat, l: seq<byte>)
    requires IsLine(data, pos, l)
    ensures l != [] && pos + |l| <= |data| && data[pos..pos + |l|] == l
  {
  }

  /** A line with its end. */
  predicate Ended(l: seq<byte>) {
    EndsLine(l) && NoEndInside(l) && |l| <= MAX_LINE
  }

  lemma EndedLine(data: seq<byte>, pos: nat, l: seq<byte>)
    requires Ended(l) && At(data, pos, l)
    ensures Line(data, pos) == Some(l)
  {
    LineExactly(data, pos, l);
  }

  // ---------- Chunks ----------

  /** A chunk on the wire: its size line and its payload. */
  datatype Piece = Piece(line: seq<byte>, payload: seq<byte>)

  ghost predicate Good(p: Piece) {
    Ended(p.line) && 0 < |p.payload| < ULONG_MAX && SizeIs(p.line, |p.payload|)
  }

  function PieceText(p: Piece): seq<byte> {
    p.line + (p.payload + CRLF)
  }

  function TextOf(ps: seq<Piece>): seq<byte>
    decreases |ps|
  {
    if ps == [] then [] else PieceText(ps[0]) + TextOf(ps[1..])
  }

  function Payloads(ps: seq<Piece>): seq<seq<byte>>
    decreases |ps|
  {
    if ps == [] then [] else [ps[0].payload] + Payloads(ps[1..])
  }

  ghost predicate AllGood(ps: seq<Piece>) {
    forall i :: 0 <= i < |ps| ==> Good(ps[i])
  }

  lemma PieceRead(data: seq<byte>, pos: nat, body: seq<byte>, limit: nat, p: Piece)
    requires Good(p) && At(data, pos, PieceText(p)) && |body| <= limit
    ensures pos + |PieceText(p)| <= |data|
    ensures Decode(data, pos, body, limit) ==
            if limit - |body| < |p.payload| then Failed(PayloadTooLarge, body)
            else Decode(data, pos + |PieceText(p)|, body + p.payload, limit)
  {
    hide Strtoul, Line, SizeIs, Ended, At;
    PieceInParts(data, pos, p);
    EndedLine(data, pos, p.line);
    SizeReadExactly(p.line, |p.payload|);
    CrlfIsLine(data, pos + |p.line| + |p.payload|);
  }

  lemma PieceInParts(data: seq<byte>, pos: nat, p: Piece)
    requires At(data, pos, PieceText(p))
    ensures At(data, pos, p.line) && At(data, pos + |p.line|, p.payload) && At(data, pos + |p.line| + |p.payload|, CRLF)
    ensures var from := pos + |p.line|;
            from + |p.payload| + 2 <= |data| && data[from..from + |p.payload|] == p.payload
    ensures |PieceText(p)| == |p.line| + |p.payload| + 2
  {
    AtInParts(data, pos, p.line, p.payload + CRLF);
    AtInParts(data, pos + |p.line|, p.payload, CRLF);
  }

  lemma CrlfIsLine(data: seq<byte>, pos: nat)
    requires pos <= |data|
    ensures At(data, pos, CRLF) <==> Line(data, pos) == Some(CRLF)
  {
    LineExactly(data, pos, CRLF);
  }

  // ---------- The end ----------

  ghost predicate TrailerLine(l: seq<byte>) {
    Ended(l) && |l| <= MAX_HEADER && l != CRLF
  }

  ghost predicate AllTrailers(ts: seq<seq<byte>>) {
    forall i :: 0 <= i < |ts| ==> TrailerLine(ts[i])
  }

  /** Behind the last size line: trailer lines and an empty one, or no line at all. */
  ghost predicate Trailing(data: seq<byte>, pos: nat, end: nat) {
    || (pos <= |data| && (forall l :: !IsLine(data, pos, l)) && end == Skipped(data, pos))
    || exists ts :: AllTrailers(ts) && At(data, pos, Concat(ts) + CRLF) && end == pos + |Concat(ts)| + 2
  }

  lemma {:induction false} TrailersRead(data: seq<byte>, pos: nat, body: seq<byte>, ts: seq<seq<byte>>)
    requires AllTrailers(ts) && At(data, pos, Concat(ts) + CRLF)
    ensures pos + |Concat(ts)| + 2 <= |data|
    ensures Line(data, pos).Some? && Trailers(data, pos, body) == Outcome(Success, body, pos + |Concat(ts)| + 2)
    decreases |ts|
  {
    hide Line, TrailerLine, At;
    AtInside(data, pos, Concat(ts) + CRLF);
    if ts == [] {
      assert Concat(ts) + CRLF == CRLF;
      CrlfIsLine(data, pos);
    } else {
      assert TrailerLine(ts[0]);
      RightNested(ts[0], Concat(ts[1..]), CRLF);
      AtInParts(data, pos, ts[0], Concat(ts[1..]) + CRLF);
      TrailerRead(data, pos, ts[0]);
      TrailersRead(data, pos + |ts[0]|, body, ts[1..]);
    }
  }

  lemma AtInside(data: seq<byte>, pos: nat, s: seq<byte>)
    requires At(data, pos, s)
    ensures pos + |s| <= |data|
  {
  }

  lemma TrailerRead(data: seq<byte>, pos: nat, l: seq<byte>)
    requires TrailerLine(l) && At(data, pos, l)
    ensures Line(data, pos) == Some(l) && l != CRLF && 0 < |l| <= MAX_HEADER && pos + |l| <= |data|
  {
    EndedLine(data, pos, l);
  }

  lemma {:induction false} TrailersAre(data: seq<byte>, pos: nat, body: seq<byte>) returns (ts: seq<seq<byte>>)
    requires pos <= |data| && Trailers(data, pos, body).verdict == Success
    ensures AllTrailers(ts) && At(data, pos, Concat(ts) + CRLF)
    ensures Trailers(data, pos, body) == Outcome(Success, body, pos + |Concat(ts)| + 2)
    decreases |data| - pos
  {
    hide Line, TrailerLine, At;
    var line := Line(data, pos).value;
    LineExactly(data, pos, line);
    if line == CRLF {
      ts := [];
      CrlfIsLine(data, pos);
      assert Concat([]) + CRLF == CRLF;
    } else {
      LineStays(data, pos, line);
      var rest := TrailersAre(data, pos + |line|, body);
      TrailerFollowed(data, pos, line, Concat(rest));
      ts := [line] + rest;
      assert ts[1..] == rest;
      RightNested(line, Concat(rest), CRLF);
      AtInParts(data, pos, line, Concat(rest) + CRLF);
    }
  }

  lemma LineStays(data: seq<byte>, pos: nat, l: seq<byte>)
    requires IsLine(data, pos, l)
    ensures l != [] && pos + |l| <= |data| && At(data, pos, l)
  {
  }

  /** A line that something follows has its end. */
  lemma TrailerFollowed(data: seq<byte>, pos: nat, l: seq<byte>, more: seq<byte>)
    requires IsLine(data, pos, l) && At(data, pos + |l|, more + CRLF) && |l| <= MAX_HEADER && l != CRLF
    ensures TrailerLine(l)
  {
  }

  lemma TrailingExactly(data: seq<byte>, pos: nat, body: seq<byte>, end: nat)
    requires pos <= |data|
    ensures AfterLast(data, pos, body) == Outcome(Success, body, end) <==> Trailing(data, pos, end)
    ensures AfterLast(data, pos, body).body == body && AfterLast(data, pos, body).verdict != PayloadTooLarge
  {
    hide Line, IsLine, TrailerLine, At, Skipped, Trailers;
    TrailersKeepBody(data, pos, body);
    if Line(data, pos).None? {
      forall l ensures !IsLine(data, pos, l) {
        LineExactly(data, pos, l);
      }
      forall ts | AllTrailers(ts) && At(data, pos, Concat(ts) + CRLF) ensures false {
        TrailersRead(data, pos, body, ts);
      }
    } else {
      LineExactly(data, pos, Line(data, pos).value);
      if Trailers(data, pos, body).verdict == Success {
        var ts := TrailersAre(data, pos, body);
      }
      forall ts | AllTrailers(ts) && At(data, pos, Concat(ts) + CRLF)
        ensures Trailers(data, pos, body) == Outcome(Success, body, pos + |Concat(ts)| + 2)
      {
        TrailersRead(data, pos, body, ts);
      }
    }
  }

  lemma {:induction false} TrailersKeepBody(data: seq<byte>, pos: nat, body: seq<byte>)
    requires pos <= |data|
    ensures Trailers(data, pos, body).body == body && Trailers(data, pos, body).verdict != PayloadTooLarge
    decreases |data| - pos
  {
    hide LineLength;
    if Line(data, pos).Some? {
      var line := Line(data, pos).value;
      if line != CRLF && |line| <= MAX_HEADER {
        TrailersKeepBody(data, pos + |line|, body);
      }
    }
  }

  // ---------- What is sent comes back, however the sizes are spelled ----------

  /** The last size line, trailer lines, and an empty line. */
  function EndText(line: seq<byte>, ts: seq<seq<byte>>): seq<byte> {
    line + (Concat(ts) + CRLF)
  }

  ghost predicate GoodEnd(line: seq<byte>, ts: seq<seq<byte>>) {
    Ended(line) && SizeIs(line, 0) && AllTrailers(ts)
  }

  lemma EndRead(data: seq<byte>, pos: nat, body: seq<byte>, limit: nat, line: seq<byte>, ts: seq<seq<byte>>)
    requires GoodEnd(line, ts) && At(data, pos, EndText(line, ts))
    ensures pos + |EndText(line, ts)| <= |data|
    ensures Decode(data, pos, body, limit) == Outcome(Success, body, pos + |EndText(line, ts)|)
  {
    hide Strtoul, Line, Ended, At, AllTrailers, Trailers, Skipped;
    AtInside(data, pos, EndText(line, ts));
    AtInParts(data, pos, line, Concat(ts) + CRLF);
    EndedLine(data, pos, line);
    SizeReadExactly(line, 0);
    TrailersRead(data, pos + |line|, body, ts);
  }

  /** The payloads that fit, one after the other. */
  function Fitting(writes: seq<seq<byte>>, room: nat): seq<byte>
    decreases |writes|
  {
    if writes == [] || |writes[0]| > room then [] else writes[0] + Fitting(writes[1..], room - |writes[0]|)
  }

  /**
   For every sequence of chunks, every spelling of their sizes and every trailer section: when the
   payloads fit, the reader hands over exactly their concatenation and stops exactly behind the
   empty line, whatever follows; when they do not, it has handed over the ones that did and says so.
   */
  lemma {:induction false} ChunksComeBack(data: seq<byte>, pos: nat, body: seq<byte>, limit: nat,
      ps: seq<Piece>, line: seq<byte>, ts: seq<seq<byte>>)
    requires |body| <= limit && AllGood(ps) && GoodEnd(line, ts) && At(data, pos, TextOf(ps) + EndText(line, ts))
    ensures pos <= |data|
    ensures Decode(data, pos, body, limit) ==
            if |body| + |Concat(Payloads(ps))| <= limit then
                Outcome(Success, body + Concat(Payloads(ps)), pos + |TextOf(ps) + EndText(line, ts)|)
            else Failed(PayloadTooLarge, body + Fitting(Payloads(ps), limit - |body|))
    decreases |ps|
  {
    hide Decode, PieceText, At, Good, GoodEnd, EndText;
    AtInside(data, pos, TextOf(ps) + EndText(line, ts));
    if ps == [] {
      assert TextOf(ps) + EndText(line, ts) == EndText(line, ts);
      assert body + Concat(Payloads(ps)) == body;
      EndRead(data, pos, body, limit, line, ts);
    } else {
      var p, rest := ps[0], TextOf(ps[1..]) + EndText(line, ts);
      assert Payloads(ps)[1..] == Payloads(ps[1..]);
      RightNested(PieceText(p), TextOf(ps[1..]), EndText(line, ts));
      AtInParts(data, pos, PieceText(p), rest);
      PieceRead(data, pos, body, limit, p);
      if |body| + |p.payload| <= limit {
        ChunksComeBack(data, pos + |PieceText(p)|, body + p.payload, limit, ps[1..], line, ts);
        RightNested(body, p.payload, Concat(Payloads(ps[1..])));
        RightNested(body, p.payload, Fitting(Payloads(ps[1..]), limit - |body + p.payload|));
      }
    }
  }

  // ---------- The writer's own spelling ----------

  lemma SizeLine(n: nat)
    requires n < ULONG_MAX
    ensures Ended(Hex(n) + CRLF) && SizeIs(Hex(n) + CRLF, n)
  {
    hide Hex, SizeIs, Ended;
    HexDigits(n);
    HexIsShort(n);
    EndedBySuffix(Hex(n));
    SizeComesBack(n);
    SizeReadExactly(Hex(n) + CRLF, n);
  }

  lemma HexIsShort(n: nat)
    requires n < ULONG_MAX
    ensures |Hex(n)| <= 16
  {
    hide Hex;
    assert Power16(4) == 0x1_0000;
    assert Power16(8) == 0x1_0000_0000;
    assert Power16(12) == 0x1_0000_0000_0000;
    assert Power16(16) == ULONG_MAX + 1;
    HexLength(n, 16);
  }

  lemma EndedBySuffix(s: seq<byte>)
    requires |s| + 2 <= MAX_LINE && forall i :: 0 <= i < |s| ==> s[i] != CR
    ensures Ended(s + CRLF)
  {
    assert forall i :: 0 <= i < |s| ==> (s + CRLF)[i] == s[i];
  }

  /** The chunks of a sequence of writes; an empty write leaves none. */
  function PiecesOf(writes: seq<seq<byte>>): seq<Piece>
    decreases |writes|
  {
    if writes == [] then [] else
    (if writes[0] == [] then [] else [Piece(Hex(|writes[0]|) + CRLF, writes[0])]) + PiecesOf(writes[1..])
  }

  lemma {:induction false} FramesArePieces(writes: seq<seq<byte>>, room: nat)
    requires forall i :: 0 <= i < |writes| ==> |writes[i]| < ULONG_MAX
    ensures var ps := PiecesOf(writes);
            && AllGood(ps) && TextOf(ps) == Frames(writes)
            && Concat(Payloads(ps)) == Concat(writes) && Fitting(Payloads(ps), room) == Fitting(writes, room)
    decreases |writes|
  {
    hide Hex, Good;
    if writes != [] {
      var ps := PiecesOf(writes);
      if writes[0] == [] {
        assert [] + PiecesOf(writes[1..]) == PiecesOf(writes[1..]);
        FramesArePieces(writes[1..], room);
      } else {
        FramesArePieces(writes[1..], if |writes[0]| <= room then room - |writes[0]| else 0);
        assert ps[1..] == PiecesOf(writes[1..]) && Payloads(ps)[1..] == Payloads(ps[1..]);
        GoodFrame(writes[0]);
      }
    }
  }

  lemma GoodFrame(d: seq<byte>)
    requires 0 < |d| < ULONG_MAX
    ensures Good(Piece(Hex(|d|) + CRLF, d)) && PieceText(Piece(Hex(|d|) + CRLF, d)) == Chunk(d)
  {
    hide Hex, Ended, SizeIs;
    SizeLine(|d|);
    RightNested(Hex(|d|) + CRLF, d, CRLF);
  }

  lemma LastIsEnd()
    ensures GoodEnd(Hex(0) + CRLF, []) && EndText(Hex(0) + CRLF, []) == LAST
  {
    SizeLine(0);
    assert Hex(0) == [48] && Concat([]) + CRLF == CRLF;
    hide SizeIs, Ended;
  }

  /** For every sequence of writes, from any place in the stream. */
  lemma WritesComeBack(data: seq<byte>, pos: nat, body: seq<byte>, limit: nat, writes: seq<seq<byte>>)
    requires |body| <= limit && At(data, pos, Frames(writes) + LAST)
    requires forall i :: 0 <= i < |writes| ==> |writes[i]| < ULONG_MAX
    ensures pos <= |data|
    ensures Decode(data, pos, body, limit) ==
            if |body| + |Concat(writes)| <= limit then
                Outcome(Success, body + Concat(writes), pos + |Frames(writes)| + |LAST|)
            else Failed(PayloadTooLarge, body + Fitting(writes, limit - |body|))
  {
    hide Decode, At, AllGood, GoodEnd, EndText, Hex, Frames, TextOf, PiecesOf;
    FramesArePieces(writes, limit - |body|);
    LastIsEnd();
    ChunksComeBack(data, pos, body, limit, PiecesOf(writes), Hex(0) + CRLF, []);
  }

  /** The whole exchange, from a wire that starts with chunks in any spelling. */
  lemma SpelledRoundTrip(ps: seq<Piece>, line: seq<byte>, ts: seq<seq<byte>>, tail: seq<byte>, limit: nat)
    requires AllGood(ps) && GoodEnd(line, ts)
    ensures var sent := TextOf(ps) + EndText(line, ts);
            Decode(sent + tail, 0, [], limit) ==
            if |Concat(Payloads(ps))| <= limit then Outcome(Success, Concat(Payloads(ps)), |sent|)
            else Failed(PayloadTooLarge, Fitting(Payloads(ps), limit))
  {
    hide Decode, AllGood, GoodEnd;
    var sent := TextOf(ps) + EndText(line, ts);
    assert (sent + tail)[0..|sent|] == sent;
    ChunksComeBack(sent + tail, 0, [], limit, ps, line, ts);
    assert [] + Concat(Payloads(ps)) == Concat(Payloads(ps));
    assert [] + Fitting(Payloads(ps), limit) == Fitting(Payloads(ps), limit);
  }

  /** The whole exchange, from a wire that starts with the writer's frames. */
  lemma RoundTrip(writes: seq<seq<byte>>, tail: seq<byte>, limit: nat)
    requires forall i :: 0 <= i < |writes| ==> |writes[i]| < ULONG_MAX
    ensures Decode(Frames(writes) + LAST + tail, 0, [], limit) ==
            if |Concat(writes)| <= limit then Outcome(Success, Concat(writes), |Frames(writes) + LAST|)
            else Failed(PayloadTooLarge, Fitting(writes, limit))
  {
    hide Decode, Frames;
    var data := Frames(writes) + LAST + tail;
    assert data[0..|Frames(writes) + LAST|] == Frames(writes) + LAST;
    WritesComeBack(data, 0, [], limit, writes);
    assert [] + Concat(writes) == Concat(writes) && [] + Fitting(writes, limit) == Fitting(writes, limit);
  }

  // ---------- What is read was there ----------

  /** Reading goes no further than the size line at pos: there is none, it is the last one, or its chunk fails. */
  predicate Stops(data: seq<byte>, pos: nat, room: nat)
    requires pos <= |data|
  {
    match Line(data, pos)
    case None => true
    case Some(line) =>
      var size := Strtoul(line);
      size.None? || size.value == ULONG_MAX || size.value == 0 || room < size.value
      || pos + |line| + size.value > |data| || Line(data, pos + |line| + size.value) != Some(CRLF)
  }

  lemma {:induction false} DecodeReads(data: seq<byte>, pos: nat, body: seq<byte>, limit: nat)
    returns (ps: seq<Piece>, body': seq<byte>, next: nat)
    requires pos <= |data| && |body| <= limit
    ensures AllGood(ps) && At(data, pos, TextOf(ps)) && next == pos + |TextOf(ps)| <= |data|
    ensures body' == body + Concat(Payloads(ps)) && |body'| <= limit
    ensures Decode(data, pos, body, limit) == Decode(data, next, body', limit)
    ensures Stops(data, next, limit - |body'|)
    decreases |data| - pos
  {
    hide Decode, Stops, Good, At, PieceText;
    if Stops(data, pos, limit - |body|) {
      ps, body', next := [], body, pos;
      AtNothing(data, pos);
      assert body + Concat(Payloads([])) == body;
    } else {
      var p := NextPiece(data, pos, limit - |body|);
      PieceRead(data, pos, body, limit, p);
      var rest, last, end := DecodeReads(data, pos + |PieceText(p)|, body + p.payload, limit);
      ps, body', next := [p] + rest, last, end;
      assert ps[1..] == rest && Payloads(ps)[1..] == Payloads(rest);
      RightNested(body, p.payload, Concat(Payloads(rest)));
      AtInParts(data, pos, PieceText(p), TextOf(rest));
    }
  }

  lemma AtNothing(data: seq<byte>, pos: nat)
    requires pos <= |data|
    ensures At(data, pos, TextOf([])) && TextOf([]) == []
  {
  }

  lemma NextPiece(data: seq<byte>, pos: nat, room: nat) returns (p: Piece)
    requires pos <= |data| && !Stops(data, pos, room)
    ensures Good(p) && At(data, pos, PieceText(p)) && |p.payload| <= room && 0 < |PieceText(p)|
  {
    hide Strtoul, Line, SizeIs;
    var line := Line(data, pos).value;
    var size := Strtoul(line).value;
    LineExactly(data, pos, line);
    LineStays(data, pos, line);
    var from := pos + |line|;
    p := Piece(line, data[from..from + size]);
    SizeReadExactly(line, size);
    CrlfIsLine(data, from + size);
    AtInParts(data, from, p.payload, CRLF);
    AtInParts(data, pos, line, p.payload + CRLF);
    FollowedLineEnds(data, pos, line);
    SizeIsBounded(line);
  }

  lemma SizeIsBounded(s: seq<byte>)
    ensures Strtoul(s).Some? ==> Strtoul(s).value <= ULONG_MAX
  {
    hide Value, DigitsAt, DigitCount, Spaces;
  }

  lemma FollowedLineEnds(data: seq<byte>, pos: nat, line: seq<byte>)
    requires IsLine(data, pos, line) && pos + |line| < |data|
    ensures Ended(line)
  {
  }

  /** A last size line at pos, and behind it what may end the stream. */
  ghost predicate EndsAt(data: seq<byte>, pos: nat, end: nat) {
    exists l :: IsLine(data, pos, l) && SizeIs(l, 0) && Trailing(data, pos + |l|, end)
  }

  /** A size line at pos that asks for more than there is room for. */
  ghost predicate AsksTooMuch(data: seq<byte>, pos: nat, room: nat) {
    exists l, n: nat :: IsLine(data, pos, l) && SizeIs(l, n) && 0 < n < ULONG_MAX && room < n
  }

  lemma StopOutcome(data: seq<byte>, pos: nat, body: seq<byte>, limit: nat, end: nat)
    requires pos <= |data| && |body| <= limit && Stops(data, pos, limit - |body|)
    ensures var o := Decode(data, pos, body, limit);
            && (o == Outcome(Success, body, end) <==> EndsAt(data, pos, end))
            && (o.verdict == PayloadTooLarge <==> AsksTooMuch(data, pos, limit - |body|))
            && (o.verdict == Success ==> o.body == body) && (o.verdict == PayloadTooLarge ==> o.body == body)
  {
    hide Strtoul, Line, IsLine, SizeIs, Trailing, AfterLast, At;
    forall l ensures IsLine(data, pos, l) <==> Line(data, pos) == Some(l) {
      LineExactly(data, pos, l);
    }
    forall l, n: nat ensures SizeIs(l, n) <==> Strtoul(l) == Some(n) {
      SizeReadExactly(l, n);
    }
    if Line(data, pos).Some? {
      var line := Line(data, pos).value;
      LineStays(data, pos, line);
      SizeIsBounded(line);
      TrailingExactly(data, pos + |line|, body, end);
    }
  }

  /**
   Reading succeeds with these bytes and stops there if and only if the stream holds chunks with
   that content, every size spelled as it may be, then a last size line, and what may end a stream.
   */
  lemma DecodeSucceedsExactly(data: seq<byte>, pos: nat, limit: nat, body: seq<byte>, end: nat)
    requires pos <= |data|
    ensures Decode(data, pos, [], limit) == Outcome(Success, body, end) <==>
            exists ps :: AllGood(ps) && At(data, pos, TextOf(ps)) && body == Concat(Payloads(ps)) && |body| <= limit
                         && EndsAt(data, pos + |TextOf(ps)|, end)
  {
    hide Decode, Stops, AllGood, At, EndsAt, AsksTooMuch;
    var ps, body', next := DecodeReads(data, pos, [], limit);
    StopOutcome(data, next, body', limit, end);
    assert body' == Concat(Payloads(ps));
    forall qs | AllGood(qs) && At(data, pos, TextOf(qs)) && |Concat(Payloads(qs))| <= limit
                && EndsAt(data, pos + |TextOf(qs)|, end)
      ensures Decode(data, pos, [], limit) == Outcome(Success, Concat(Payloads(qs)), end)
    {
      var last := PiecesRead(data, pos, [], limit, qs);
      assert [] + Concat(Payloads(qs)) == Concat(Payloads(qs));
      EndStops(data, last, limit - |Concat(Payloads(qs))|, end);
      StopOutcome(data, last, Concat(Payloads(qs)), limit, end);
    }
  }

  /** It reports too large a payload if and only if, behind chunks that fit, a size line asks for more than is left. */
  lemma DecodeRefusesExactly(data: seq<byte>, pos: nat, limit: nat, body: seq<byte>)
    requires pos <= |data|
    ensures Decode(data, pos, [], limit).verdict == PayloadTooLarge && Decode(data, pos, [], limit).body == body <==>
            exists ps :: AllGood(ps) && At(data, pos, TextOf(ps)) && body == Concat(Payloads(ps)) && |body| <= limit
                         && AsksTooMuch(data, pos + |TextOf(ps)|, limit - |body|)
  {
    hide Decode, Stops, AllGood, At, EndsAt, AsksTooMuch;
    var ps, body', next := DecodeReads(data, pos, [], limit);
    StopOutcome(data, next, body', limit, 0);
    assert body' == Concat(Payloads(ps));
    forall qs | AllGood(qs) && At(data, pos, TextOf(qs)) && |Concat(Payloads(qs))| <= limit
                && AsksTooMuch(data, pos + |TextOf(qs)|, limit - |Concat(Payloads(qs))|)
      ensures Decode(data, pos, [], limit).verdict == PayloadTooLarge
      ensures Decode(data, pos, [], limit).body == Concat(Payloads(qs))
    {
      var last := PiecesRead(data, pos, [], limit, qs);
      assert [] + Concat(Payloads(qs)) == Concat(Payloads(qs));
      AskingStops(data, last, limit - |Concat(Payloads(qs))|);
      StopOutcome(data, last, Concat(Payloads(qs)), limit, 0);
    }
  }

  lemma {:induction false} PiecesRead(data: seq<byte>, pos: nat, body: seq<byte>, limit: nat, ps: seq<Piece>)
    returns (next: nat)
    requires AllGood(ps) && At(data, pos, TextOf(ps)) && |body| + |Concat(Payloads(ps))| <= limit
    ensures next == pos + |TextOf(ps)| <= |data| && pos <= |data|
    ensures Decode(data, pos, body, limit) == Decode(data, next, body + Concat(Payloads(ps)), limit)
    decreases |ps|
  {
    hide Decode, Good, At, PieceText;
    AtInside(data, pos, TextOf(ps));
    next := pos + |TextOf(ps)|;
    if ps == [] {
      assert body + Concat(Payloads(ps)) == body;
    } else {
      var p := ps[0];
      assert Payloads(ps)[1..] == Payloads(ps[1..]);
      AtInParts(data, pos, PieceText(p), TextOf(ps[1..]));
      PieceRead(data, pos, body, limit, p);
      var last := PiecesRead(data, pos + |PieceText(p)|, body + p.payload, limit, ps[1..]);
      RightNested(body, p.payload, Concat(Payloads(ps[1..])));
    }
  }

  lemma EndStops(data: seq<byte>, pos: nat, room: nat, end: nat)
    requires pos <= |data| && EndsAt(data, pos, end)
    ensures Stops(data, pos, room)
  {
    hide Strtoul, Line, IsLine, SizeIs, Trailing;
    var l :| IsLine(data, pos, l) && SizeIs(l, 0) && Trailing(data, pos + |l|, end);
    LineExactly(data, pos, l);
    LineStays(data, pos, l);
    SizeReadExactly(l, 0);
  }

  lemma AskingStops(data: seq<byte>, pos: nat, room: nat)
    requires pos <= |data| && AsksTooMuch(data, pos, room)
    ensures Stops(data, pos, room)
  {
    hide Strtoul, Line, IsLine, SizeIs;
    var l, n: nat :| IsLine(data, pos, l) && SizeIs(l, n) && 0 < n < ULONG_MAX && room < n;
    LineExactly(data, pos, l);
    LineStays(data, pos, l);
    SizeReadExactly(l, n);
  }

  /** The chunk a size line at pos asks for, as far as the stream goes; nothing when there is no such line. */
  ghost predicate LeftOver(data: seq<byte>, pos: nat, room: nat, part: seq<byte>) {
    if exists l, n: nat :: AsksFor(data, pos, room, l, n) then
      exists l, n: nat :: AsksFor(data, pos, room, l, n) && part == Upto(data, pos + |l|, n)
    else part == []
  }

  ghost predicate AsksFor(data: seq<byte>, pos: nat, room: nat, l: seq<byte>, n: nat) {
    IsLine(data, pos, l) && SizeIs(l, n) && 0 < n < ULONG_MAX && n <= room
  }

  function Upto(data: seq<byte>, from: nat, n: nat): seq<byte> {
    if from > |data| then [] else if from + n <= |data| then data[from..from + n] else data[from..]
  }

  lemma StopLeaves(data: seq<byte>, pos: nat, body: seq<byte>, limit: nat) returns (part: seq<byte>)
    requires pos <= |data| && |body| <= limit && Stops(data, pos, limit - |body|)
    requires Decode(data, pos, body, limit).verdict == Error
    ensures LeftOver(data, pos, limit - |body|, part) && Decode(data, pos, body, limit).body == body + part
  {
    hide Strtoul, Line, IsLine, SizeIs, AfterLast, At;
    forall l ensures IsLine(data, pos, l) <==> Line(data, pos) == Some(l) {
      LineExactly(data, pos, l);
    }
    forall l, n: nat ensures SizeIs(l, n) <==> Strtoul(l) == Some(n) {
      SizeReadExactly(l, n);
    }
    part := [];
    assert body + [] == body;
    if Line(data, pos).Some? {
      var line := Line(data, pos).value;
      LineStays(data, pos, line);
      SizeIsBounded(line);
      TrailingExactly(data, pos + |line|, body, 0);
      if Strtoul(line).Some? {
        var n := Strtoul(line).value;
        if AsksFor(data, pos, limit - |body|, line, n) {
          part := Upto(data, pos + |line|, n);
        }
      }
    }
  }

  /** When it fails, whole chunks have been handed over, and of the next one what there was. */
  lemma DecodeFailsWith(data: seq<byte>, pos: nat, limit: nat) returns (ps: seq<Piece>, part: seq<byte>)
    requires pos <= |data| && Decode(data, pos, [], limit).verdict == Error
    ensures AllGood(ps) && At(data, pos, TextOf(ps)) && |Concat(Payloads(ps))| <= limit
    ensures Decode(data, pos, [], limit).body == Concat(Payloads(ps)) + part
    ensures LeftOver(data, pos + |TextOf(ps)|, limit - |Concat(Payloads(ps))|, part)
  {
    hide Decode, Stops, AllGood, At, LeftOver;
    var body, next;
    ps, body, next := DecodeReads(data, pos, [], limit);
    assert body == Concat(Payloads(ps));
    part := StopLeaves(data, next, body, limit);
  }
}

/** The chunked coding as it runs: a sink that frames writes, and a reader over a stream of short reads. */
module ChunkedStream {
  import opened Options
  import opened Bytes
  import opened Chunked

  /** do { ... } while (n > 0), four bits at a time. */
  method FromIToHex(size: nat) returns (ret: seq<byte>)
    ensures ret == Hex(size)
  {
    ret := [Digit(size % 16)];
    var n: nat := size / 16;
    while n > 0
      invariant Hex(size) == if n == 0 then ret else Hex(n) + ret
    {
      ret := [Digit(n % 16)] + ret;
      n := n / 16;
    }
  }

  /** What the socket and the provider answer. */
  datatype Delivery = Delivery(op: SinkOp, first: bool, second: bool)

  datatype ProviderCall = ProviderCall(writable: bool, ops: seq<Delivery>, proceeds: bool)

  datatype WriteError = NoError | NotWritten | Canceled

  class DataSink {
    var wire: seq<byte>
    var ok: bool
    var dataAvailable: bool

    constructor ()
      ensures wire == [] && ok && dataAvailable
    {
      wire, ok, dataAvailable := [], true, true;
    }

    /** One write; delivered is what the socket says, asked only when there is something to send. */
    method Write(d: seq<byte>, delivered: bool)
      modifies this
      ensures ok == (old(ok) && (d == [] || delivered))
      ensures ok ==> wire == old(wire) + Frames([d])
      ensures dataAvailable == if old(ok) then d != [] else old(dataAvailable)
    {
      if ok {
        dataAvailable := |d| > 0;
        assert Frames([d]) == (if d == [] then [] else Chunk(d)) + [];
        if d != [] {
          var size := FromIToHex(|d|);
          if delivered {
            wire := wire + (size + CRLF + d + CRLF);
          } else {
            ok := false;
          }
        }
      }
    }

    method Done(marker: bool, end: bool)
      modifies this
      ensures ok == (old(ok) && marker && end)
      ensures ok ==> wire == old(wire) + LAST
      ensures dataAvailable == (old(dataAvailable) && !old(ok))
    {
      if !ok { return; }
      dataAvailable := false;
      if marker {
        wire := wire + [48, CR, LF];
      } else {
        ok := false;
      }
      if end {
        wire := wire + CRLF;
      } else {
        ok := false;
      }
    }

    method Perform(d: Delivery)
      modifies this
      ensures ok == (old(ok) && Delivers(d))
      ensures ok ==> wire == old(wire) + WireOf(d.op) && (dataAvailable <==> d.op.Put? && d.op.d != [])
    {
      match d.op
      case Put(bytes) =>
        OneFrame(bytes);
        Write(bytes, d.first);
      case Finish =>
        Done(d.first, d.second);
    }

    method PerformAll(ds: seq<Delivery>, ghost before: seq<SinkOp>)
      requires ok ==> dataAvailable == DataAvailable(before)
      modifies this
      ensures ok == (old(ok) && AllDelivered(ds))
      ensures ok ==> wire == old(wire) + Wire(Ops(ds)) && dataAvailable == DataAvailable(before + Ops(ds))
    {
      hide Wire, WireOf, DataAvailable, Delivers;
      NothingPerformed(wire, before, ds);
      for i := 0 to |ds|
        invariant ok == (old(ok) && AllDelivered(ds[..i]))
        invariant ok ==> wire == old(wire) + Wire(Ops(ds[..i]))
        invariant ok ==> dataAvailable == DataAvailable(before + Ops(ds[..i]))
      {
        OnePerformed(old(wire), before, ds, i);
        Perform(ds[i]);
      }
      assert ds[..|ds|] == ds;
    }

    /**
     Calls the provider as long as data is available; calls is what it does until the server
     shuts down.  The outcome is the one `EndsWith` says.  On success the wire holds what was performed,
     and a terminator is there exactly when the provider finished.
     */
    method WriteContentChunked(calls: seq<ProviderCall>) returns (error: WriteError, used: nat)
      requires ok && dataAvailable
      modifies this
      ensures EndsWith(calls, error, used)
      ensures var ops := Performed(calls[..used]);
              error == NoError ==>
                && wire == old(wire) + Wire(ops)
                && (wire == old(wire) + (Frames(Puts(ops)) + LAST) <==> Finishes(ops))
    {
      hide Wire, WireOf, DataAvailable, Performed, Puts, Frames, Finishes, AllDelivered;
      NothingCalled(wire, calls);
      used := 0;
      while used < |calls| && dataAvailable
        invariant used <= |calls| && ok && wire == old(wire) + Wire(Performed(calls[..used]))
        invariant dataAvailable == DataAvailable(Performed(calls[..used]))
        invariant Went(calls, used)
      {
        var call := calls[used];
        if !call.writable {
          return NotWritten, used;
        }
        OneCalled(old(wire), calls, used);
        PerformAll(call.ops, Performed(calls[..used]));
        used := used + 1;
        if !call.proceeds {
          return Canceled, used;
        }
        if !ok {
          return NotWritten, used;
        }
      }
      ghost var ops := Performed(calls[..used]);
      TerminatedExactly(ops);
      SamePrefix(old(wire), Wire(ops), Frames(Puts(ops)) + LAST);
      return NoError, used;
    }

    /** A provider that makes these writes and then reports that it is done, over a socket that delivers. */
    method Send(writes: seq<seq<byte>>)
      requires ok
      modifies this
      ensures ok && wire == old(wire) + (Frames(writes) + LAST)
    {
      assert Frames(writes[..0]) == [];
      for i := 0 to |writes|
        invariant ok && wire == old(wire) + Frames(writes[..i])
      {
        FramesSnoc(writes, i);
        RightNested(old(wire), Frames(writes[..i]), Frames([writes[i]]));
        Write(writes[i], true);
      }
      assert writes[..|writes|] == writes;
      RightNested(old(wire), Frames(writes), LAST);
      Done(true, true);
    }
  }

  /** The socket takes what the operation sends. */
  predicate Delivers(d: Delivery) {
    match d.op
    case Put(bytes) => bytes == [] || d.first
    case Finish => d.first && d.second
  }

  predicate AllDelivered(ds: seq<Delivery>) {
    forall i :: 0 <= i < |ds| ==> Delivers(ds[i])
  }

  /** The call is made: data is available and the socket can be written. */
  predicate Called(calls: seq<ProviderCall>, i: nat)
    requires i < |calls|
  {
    DataAvailable(Performed(calls[..i])) && calls[i].writable
  }

  predicate GoesOn(calls: seq<ProviderCall>, i: nat)
    requires i < |calls|
  {
    Called(calls, i) && calls[i].proceeds && AllDelivered(calls[i].ops)
  }

  /** The first n calls are made, proceed and are delivered. */
  predicate Went(calls: seq<ProviderCall>, n: nat)
    requires n <= |calls|
  {
    forall i :: 0 <= i < n ==> GoesOn(calls, i)
  }

  /** How the calls end: used says how many have been made. */
  predicate EndsWith(calls: seq<ProviderCall>, error: WriteError, used: nat) {
    used <= |calls| &&
    match error
    case NoError => Went(calls, used) && (used == |calls| || !DataAvailable(Performed(calls[..used])))
    case Canceled => used > 0 && Went(calls, used - 1) && Called(calls, used - 1) && !calls[used - 1].proceeds
    case NotWritten =>
      || (used < |calls| && Went(calls, used) && DataAvailable(Performed(calls[..used])) && !calls[used].writable)
      || (used > 0 && Went(calls, used - 1) && Called(calls, used - 1)
          && calls[used - 1].proceeds && !AllDelivered(calls[used - 1].ops))
  }

  /** The call with which it ends is the first that does not go on. */
  lemma EndsAtFirst(calls: seq<ProviderCall>, error: WriteError, used: nat) returns (n: nat)
    requires EndsWith(calls, error, used)
    ensures n <= |calls| && (n == used || n + 1 == used)
    ensures Went(calls, n) && (n < |calls| ==> !GoesOn(calls, n))
    ensures n < used <==> n < |calls| && Called(calls, n)
    ensures error == if n == |calls| || !DataAvailable(Performed(calls[..n])) then NoError
                     else if calls[n].writable && !calls[n].proceeds then Canceled else NotWritten
  {
    hide AllDelivered, DataAvailable, Performed;
    assert used > 0 && Went(calls, used) ==> GoesOn(calls, used - 1);
    n := if used > 0 && !Went(calls, used) then used - 1 else used;
  }

  /** Every sequence of calls ends in one way only. */
  lemma OneEnd(calls: seq<ProviderCall>, error: WriteError, used: nat, error': WriteError, used': nat)
    requires EndsWith(calls, error, used) && EndsWith(calls, error', used')
    ensures error == error' && used == used'
  {
    hide AllDelivered, DataAvailable, Performed;
    var n := EndsAtFirst(calls, error, used);
    var n' := EndsAtFirst(calls, error', used');
  }

  function Ops(ds: seq<Delivery>): (ops: seq<SinkOp>)
    ensures |ops| == |ds| && forall i :: 0 <= i < |ds| ==> ops[i] == ds[i].op
  {
    seq(|ds|, i requires 0 <= i < |ds| => ds[i].op)
  }

  function Performed(calls: seq<ProviderCall>): seq<SinkOp>
    decreases |calls|
  {
    if calls == [] then [] else Performed(calls[..|calls| - 1]) + Ops(calls[|calls| - 1].ops)
  }

  lemma OneFrame(d: seq<byte>)
    ensures Frames([d]) == WireOf(Put(d))
  {
    hide Chunk;
    assert Frames([d]) == WireOf(Put(d)) + [];
  }

  lemma {:induction false} WireConcat(a: seq<SinkOp>, c: seq<SinkOp>)
    ensures Wire(a + c) == Wire(a) + Wire(c)
    decreases |a|
  {
    hide WireOf;
    if a == [] {
      assert a + c == c;
    } else {
      assert (a + c)[1..] == a[1..] + c;
      WireConcat(a[1..], c);
      RightNested(WireOf(a[0]), Wire(a[1..]), Wire(c));
    }
  }

  lemma WireOne(op: SinkOp)
    ensures Wire([op]) == WireOf(op)
  {
    hide WireOf;
    assert Wire([op]) == WireOf(op) + Wire([]);
  }

  lemma NothingPerformed(wire: seq<byte>, before: seq<SinkOp>, ds: seq<Delivery>)
    ensures wire + Wire(Ops(ds[..0])) == wire && before + Ops(ds[..0]) == before
  {
  }

  lemma OnePerformed(wire: seq<byte>, before: seq<SinkOp>, ds: seq<Delivery>, i: nat)
    requires i < |ds|
    ensures wire + Wire(Ops(ds[..i + 1])) == wire + Wire(Ops(ds[..i])) + WireOf(ds[i].op)
    ensures DataAvailable(before + Ops(ds[..i + 1])) <==> ds[i].op.Put? && ds[i].op.d != []
  {
    hide WireOf;
    assert Ops(ds[..i + 1]) == Ops(ds[..i]) + [ds[i].op];
    WireConcat(Ops(ds[..i]), [ds[i].op]);
    WireOne(ds[i].op);
    RightNested(wire, Wire(Ops(ds[..i])), WireOf(ds[i].op));
  }

  lemma NothingCalled(wire: seq<byte>, calls: seq<ProviderCall>)
    ensures wire + Wire(Performed(calls[..0])) == wire && DataAvailable(Performed(calls[..0]))
  {
  }

  lemma OneCalled(wire: seq<byte>, calls: seq<ProviderCall>, i: nat)
    requires i < |calls|
    ensures Performed(calls[..i + 1]) == Performed(calls[..i]) + Ops(calls[i].ops)
    ensures wire + Wire(Performed(calls[..i + 1])) == wire + Wire(Performed(calls[..i])) + Wire(Ops(calls[i].ops))
  {
    hide Wire;
    assert calls[..i + 1][..i] == calls[..i];
    WireConcat(Performed(calls[..i]), Ops(calls[i].ops));
    RightNested(wire, Wire(Performed(calls[..i])), Wire(Ops(calls[i].ops)));
  }

  lemma {:induction false} FramesSnoc(writes: seq<seq<byte>>, i: nat)
    requires i < |writes|
    ensures Frames(writes[..i + 1]) == Frames(writes[..i]) + Frames([writes[i]])
    decreases i
  {
    hide Chunk;
    if i > 0 {
      assert writes[..i + 1][1..] == writes[1..][..i];
      assert writes[..i][1..] == writes[1..][..i - 1];
      FramesSnoc(writes[1..], i - 1);
      RightNested(if writes[0] == [] then [] else Chunk(writes[0]), Frames(writes[1..][..i - 1]), Frames([writes[i]]));
    } else {
      assert writes[..1] == [writes[0]];
      assert Frames([]) + Frames([writes[0]]) == Frames([writes[0]]);
    }
  }

  /** A connection on which the peer has sent data and closed; a read returns what has arrived, at least one byte. */
  class Stream {
    const data: seq<byte>
    var pos: nat

    ghost predicate Valid() reads this { pos <= |data| }

    constructor (bytes: seq<byte>)
      ensures Valid() && data == bytes && pos == 0
    {
      data, pos := bytes, 0;
    }

    method Read(max: nat) returns (got: seq<byte>)
      requires Valid() && max > 0
      modifies this
      ensures Valid() && |got| <= max && pos == old(pos) + |got| && got == data[old(pos)..pos]
      ensures got == [] <==> old(pos) == |data|
      ensures got != [] ==> got[0] == data[old(pos)]
    {
      if pos == |data| {
        return [];
      }
      var n: nat :| 1 <= n <= max && pos + n <= |data|;
      got := data[pos..pos + n];
      pos := pos + n;
    }
  }

  /** The line at pos when its first n bytes are known not to end it. */
  ghost function LineFrom(data: seq<byte>, pos: nat, n: nat): Option<seq<byte>>
    requires pos + n <= |data|
  {
    match LineLength(data, pos, n)
    case None => None
    case Some(k) => Some(data[pos..pos + k])
  }

  /** The first n bytes have been read and do not end the line; prev is the last of them. */
  ghost predicate LinePrefix(data: seq<byte>, start: nat, n: nat, text: seq<byte>, prev: byte) {
    && start + n <= |data| && n <= MAX_LINE && text == data[start..start + n]
    && prev == (if n == 0 then 0 else data[start + n - 1])
    && Line(data, start) == LineFrom(data, start, n)
  }

  lemma PrefixStarts(data: seq<byte>, start: nat)
    requires start <= |data|
    ensures LinePrefix(data, start, 0, [], 0)
  {
  }

  lemma PrefixLength(data: seq<byte>, start: nat, n: nat, text: seq<byte>, prev: byte)
    requires LinePrefix(data, start, n, text, prev)
    ensures |text| == n && start + n <= |data| && n <= MAX_LINE
  {
  }

  lemma PrefixEnds(data: seq<byte>, start: nat, n: nat, text: seq<byte>, prev: byte)
    requires LinePrefix(data, start, n, text, prev) && (n == MAX_LINE || start + n == |data|)
    ensures Line(data, start) == if n == MAX_LINE || n == 0 then None else Some(text)
    ensures Line(data, start) == None ==> Skipped(data, start) == start + n
  {
    hide Line;
  }

  lemma PrefixGrows(data: seq<byte>, start: nat, n: nat, text: seq<byte>, prev: byte)
    requires LinePrefix(data, start, n, text, prev) && n < MAX_LINE && start + n < |data|
    ensures var c := data[start + n];
            if prev == CR && c == LF then Line(data, start) == Some(text + [c])
            else LinePrefix(data, start, n + 1, text + [c], c)
  {
    hide Line;
    assert data[start..start + n] + [data[start + n]] == data[start..start + n + 1];
  }

  /** The text is in the fixed buffer, with a terminating null, or all of it in the growing one. */
  ghost predicate InBuffers(fixed: array<byte>, used: nat, growable: seq<byte>, text: seq<byte>)
    reads fixed
  {
    && 2 <= fixed.Length && used < fixed.Length
    && (used > 0 ==> fixed[used] == 0)
    && (growable != [] ==> used == fixed.Length - 1)
    && text == if growable == [] then fixed[..used] else growable
  }

  /** A line in a fixed buffer of sixteen characters, or in a growing one once it is full. */
  class StreamLineReader {
    const stream: Stream
    const fixed: array<byte>
    var used: nat
    var growable: seq<byte>
    /** The line read. */
    ghost var text: seq<byte>

    ghost predicate Valid() reads this, fixed {
      InBuffers(fixed, used, growable, text)
    }

    constructor (s: Stream, size: nat)
      requires 2 <= size
      ensures Valid() && stream == s && fresh(fixed) && text == []
    {
      stream, fixed, used, growable, text := s, new byte[size], 0, [], [];
    }

    method Ptr() returns (line: seq<byte>)
      requires Valid()
      ensures line == text
    {
      line := if growable == [] then fixed[..used] else growable;
    }

    method Size() returns (n: nat)
      requires Valid()
      ensures n == |text|
    {
      n := if growable == [] then used else |growable|;
    }

    /** The last cell of the fixed buffer is for the terminating null. */
    method Append(c: byte)
      requires Valid()
      modifies this, fixed
      ensures Valid() && text == old(text) + [c]
    {
      text := text + [c];
      if used < fixed.Length - 1 {
        fixed[used] := c;
        used := used + 1;
        fixed[used] := 0;
      } else {
        if growable == [] {
          growable := fixed[..used];
        }
        growable := growable + [c];
      }
    }

    method Getline() returns (ok: bool)
      requires Valid() && stream.Valid()
      modifies this, fixed, stream
      ensures Valid() && stream.Valid()
      ensures ok <==> Line(stream.data, old(stream.pos)).Some?
      ensures ok ==> text == Line(stream.data, old(stream.pos)).value && stream.pos == old(stream.pos) + |text|
      ensures !ok ==> stream.pos == Skipped(stream.data, old(stream.pos))
    {
      hide Line, LinePrefix, Skipped, InBuffers;
      ghost var data, start := stream.data, stream.pos;
      Clear();
      PrefixStarts(data, start);
      var prev: byte := 0;
      ghost var i: nat := 0;
      while true
        invariant Valid() && LinePrefix(data, start, i, text, prev) && stream.pos == start + i
        invariant start + i <= |data|
        decreases |data| - i
      {
        PrefixLength(data, start, i, text, prev);
        var size := Size();
        if size >= MAX_LINE {
          PrefixEnds(data, start, i, text, prev);
          return false;
        }
        var got := stream.Read(1);
        if got == [] {
          PrefixEnds(data, start, i, text, prev);
          return size > 0;
        }
        PrefixGrows(data, start, i, text, prev);
        Append(got[0]);
        if prev == CR && got[0] == LF {
          return true;
        }
        prev := got[0];
        i := i + 1;
      }
    }

    method Clear()
      requires Valid()
      modifies this`used, this`growable, this`text
      ensures Valid() && text == []
    {
      used, growable, text := 0, [], [];
    }
  }

  const RECV_BUFSIZ: nat := 16384

  /** Hands over len bytes in pieces of whatever size the reads return; fails when the stream ends before. */
  method ReadContentWithLength(stream: Stream, len: nat, body: seq<byte>) returns (ok: bool, out: seq<byte>)
    requires stream.Valid()
    modifies stream
    ensures stream.Valid()
    ensures var from := old(stream.pos);
            && ok == (from + len <= |stream.data|)
            && (ok ==> stream.pos == from + len && out == body + stream.data[from..from + len])
            && (!ok ==> out == body + stream.data[from..])
  {
    out := body;
    var r := 0;
    ghost var from := stream.pos;
    while r < len
      invariant stream.Valid() && r <= len && stream.pos == from + r
      invariant out == body + stream.data[from..from + r]
    {
      var got := stream.Read(if len - r < RECV_BUFSIZ then len - r else RECV_BUFSIZ);
      if got == [] {
        return false, out;
      }
      assert stream.data[from..from + r] + got == stream.data[from..from + r + |got|];
      RightNested(body, stream.data[from..from + r], got);
      out := out + got;
      r := r + |got|;
    }
    return true, out;
  }

  /** The reader holds the line that starts at position at. */
  ghost predicate HoldsLine(reader: StreamLineReader, at: nat)
    reads reader, reader.fixed, reader.stream
  {
    && reader.Valid() && reader.stream.Valid() && at <= |reader.stream.data|
    && Line(reader.stream.data, at) == Some(reader.text) && reader.stream.pos == at + |reader.text|
  }

  /** The lines behind the last chunk; the declared trailer fields they may carry are left out. */
  method ReadTrailers(stream: Stream, reader: StreamLineReader, ghost body: seq<byte>) returns (verdict: Verdict)
    requires reader.Valid() && stream.Valid() && reader.stream == stream
    modifies reader, reader.fixed, stream
    ensures reader.Valid()
    ensures var o := AfterLast(stream.data, old(stream.pos), body);
            verdict == o.verdict && o.body == body && (verdict == Success ==> stream.pos == o.pos)
  {
    hide Line, Skipped, InBuffers, AfterLast, Trailers;
    ghost var data, start := stream.data, stream.pos;
    FirstTrailer(data, start, body);
    var more := reader.Getline();
    if !more {
      return Success;
    }
    ghost var at: nat := start;
    var line := reader.Ptr();
    while line != CRLF
      invariant HoldsLine(reader, at) && line == reader.text
      invariant AfterLast(data, start, body) == Trailers(data, at, body)
      decreases |data| - stream.pos
    {
      NextTrailer(data, at, body);
      if |line| > MAX_HEADER {
        return Error;
      }
      at := stream.pos;
      LineInside(data, at);
      more := reader.Getline();
      if !more {
        NextTrailer(data, at, body);
        return Error;
      }
      line := reader.Ptr();
    }
    NextTrailer(data, at, body);
    return Success;
  }

  lemma FirstTrailer(data: seq<byte>, pos: nat, body: seq<byte>)
    requires pos <= |data|
    ensures AfterLast(data, pos, body) ==
            if Line(data, pos).None? then Outcome(Success, body, Skipped(data, pos)) else Trailers(data, pos, body)
  {
    hide Line, Trailers, Skipped;
  }

  lemma NextTrailer(data: seq<byte>, pos: nat, body: seq<byte>)
    requires pos <= |data|
    ensures Trailers(data, pos, body) ==
            match Line(data, pos)
            case None => Failed(Error, body)
            case Some(line) =>
              if line == CRLF then Outcome(Success, body, pos + 2)
              else if |line| > MAX_HEADER || pos + |line| > |data| then Failed(Error, body)
              else Trailers(data, pos + |line|, body)
  {
    LineInside(data, pos);
    hide Line;
  }

  lemma LineInside(data: seq<byte>, pos: nat)
    requires pos <= |data|
    ensures Line(data, pos).Some? ==> 0 < |Line(data, pos).value| <= |data| - pos
  {
  }

  // One step of the reader at a time.

  lemma DecodeNoLine(data: seq<byte>, at: nat, body: seq<byte>, limit: nat)
    requires at <= |data| && Line(data, at) == None
    ensures Decode(data, at, body, limit) == Failed(Error, body)
  {
  }

  lemma DecodeNoSize(data: seq<byte>, at: nat, line: seq<byte>, body: seq<byte>, limit: nat)
    requires at <= |data| && Line(data, at) == Some(line)
    requires Strtoul(line).None? || Strtoul(line).value == ULONG_MAX
    ensures Decode(data, at, body, limit) == Failed(Error, body)
  {
  }

  lemma DecodeLast(data: seq<byte>, at: nat, line: seq<byte>, body: seq<byte>, limit: nat)
    requires at + |line| <= |data| && Line(data, at) == Some(line) && Strtoul(line) == Some(0)
    ensures Decode(data, at, body, limit) == AfterLast(data, at + |line|, body)
  {
  }

  lemma DecodeChunk(data: seq<byte>, at: nat, line: seq<byte>, chunk: nat, body: seq<byte>, limit: nat)
    requires at + |line| <= |data| && Line(data, at) == Some(line) && Strtoul(line) == Some(chunk)
             && chunk > 0 && chunk != ULONG_MAX
    ensures var from := at + |line|;
            var to := from + chunk;
            Decode(data, at, body, limit) ==
            if |body| > limit || limit - |body| < chunk then Failed(PayloadTooLarge, body)
            else if to > |data| then Failed(Error, body + data[from..])
            else if Line(data, to) != Some(CRLF) then Failed(Error, body + data[from..to])
            else Decode(data, to + 2, body + data[from..to], limit)
  {
    hide Strtoul, LineLength;
  }

  /** One chunk whose size line has been read: its payload, its line end, and the next size line. */
  method ReadChunk(reader: StreamLineReader, chunk: nat, body: seq<byte>, limit: nat, ghost at: nat)
    returns (verdict: Verdict, out: seq<byte>)
    requires HoldsLine(reader, at) && Strtoul(reader.text) == Some(chunk) && chunk > 0 && chunk != ULONG_MAX
    modifies reader, reader.fixed, reader.stream
    ensures reader.Valid()
    ensures var data := reader.stream.data;
            var to := old(reader.stream.pos) + chunk + 2;
            if verdict == Success then
              to <= |data| && HoldsLine(reader, to) && Decode(data, at, body, limit) == Decode(data, to, out, limit)
            else Decode(data, at, body, limit) == Failed(verdict, out)
  {
    hide Decode, Strtoul, Line, Skipped, Failed, InBuffers;
    ghost var data, from := reader.stream.data, reader.stream.pos;
    DecodeChunk(data, at, reader.text, chunk, body, limit);
    verdict, out := Error, body;
    if |body| > limit || limit - |body| < chunk {
      verdict := PayloadTooLarge;
    } else {
      var ok;
      ok, out := ReadContentWithLength(reader.stream, chunk, body);
      if ok {
        ok := NextSize(reader);
        if ok {
          verdict := Success;
        } else if Line(data, from + chunk) == Some(CRLF) {
          DecodeNoLine(data, from + chunk + 2, out, limit);
        }
      }
    }
  }

  /** The line end behind a payload and the size line after it. */
  method NextSize(reader: StreamLineReader) returns (ok: bool)
    requires reader.Valid() && reader.stream.Valid()
    modifies reader, reader.fixed, reader.stream
    ensures reader.Valid()
    ensures var data, at := reader.stream.data, old(reader.stream.pos);
            && (ok ==> Line(data, at) == Some(CRLF) && at + 2 <= |data| && HoldsLine(reader, at + 2))
            && (!ok ==> Line(data, at) != Some(CRLF) || (at + 2 <= |data| && Line(data, at + 2) == None))
  {
    hide Line, Skipped;
    ok := reader.Getline();
    var line := reader.Ptr();
    if ok && line == CRLF {
      ok := reader.Getline();
    } else {
      ok := false;
    }
  }

  ghost predicate EndsAs(o: Outcome, verdict: Verdict, body: seq<byte>, stream: Stream)
    reads stream
  {
    verdict == o.verdict && body == o.body && (verdict == Success ==> stream.pos == o.pos)
  }

  /** For every input: the verdict, the bytes handed over and, on success, the place where reading stops. */
  method ReadContentChunked(stream: Stream, limit: nat) returns (verdict: Verdict, body: seq<byte>)
    requires stream.Valid()
    modifies stream
    ensures EndsAs(Decode(stream.data, old(stream.pos), [], limit), verdict, body, stream)
  {
    hide Decode, Line, Skipped;
    var reader := new StreamLineReader(stream, 16);
    ghost var start := stream.pos;
    var more := reader.Getline();
    if !more {
      DecodeNoLine(stream.data, start, [], limit);
      return Error, [];
    }
    verdict, body := ReadChunks(reader, limit, start);
  }

  method ReadChunks(reader: StreamLineReader, limit: nat, ghost start: nat) returns (verdict: Verdict, body: seq<byte>)
    requires HoldsLine(reader, start)
    modifies reader, reader.fixed, reader.stream
    ensures EndsAs(Decode(reader.stream.data, start, [], limit), verdict, body, reader.stream)
  {
    hide Decode, Strtoul, Line, AfterLast, InBuffers;
    ghost var data, at := reader.stream.data, start;
    verdict, body := Success, [];
    while verdict == Success
      invariant verdict == Success ==> HoldsLine(reader, at)
      invariant Decode(data, start, [], limit) == if verdict == Success then Decode(data, at, body, limit)
                else Failed(verdict, body)
      decreases |data| - at, verdict == Success
    {
      var line := reader.Ptr();
      var size := Strtoul(line);
      if size == Some(0) {
        DecodeLast(data, at, line, body, limit);
        verdict := ReadTrailers(reader.stream, reader, body);
        return;
      }
      if size.None? || size.value == ULONG_MAX {
        DecodeNoSize(data, at, line, body, limit);
        verdict := Error;
      } else {
        ghost var next := reader.stream.pos + size.value + 2;
        verdict, body := ReadChunk(reader, size.value, body, limit, at);
        at := if verdict == Success then next else at;
      }
    }
  }
}

/**
 The body of a form-data part read from a stream that arrives in pieces: a buffer with two
 offsets, a search for the delimiter, and as many bytes kept back as the delimiter is long.
 */
module Multipart {
  import opened Options
  import opened Bytes
  import opened Searching

  const DASH: seq<byte> := [45, 45]

  // ---------- The stream as a whole ----------

  datatype Phase = InBody | AtBoundary | NextPart | Closed

  /** What a part has come to: what the receiver has got, and what is still held in the buffer. */
  datatype Progress = Progress(phase: Phase, received: seq<byte>, held: seq<byte>)

  /** The bytes after a delimiter: a line break leads to the next part, two dashes end the form. */
  function AfterDelimiter(received: seq<byte>, rest: seq<byte>): Progress {
    if CRLF <= rest then Progress(NextPart, received, rest[2..])
    else if DASH <= rest then Progress(Closed, received, [])
    else Progress(AtBoundary, received, rest)
  }

  /** A function of the stream alone, whatever the pieces were. */
  function PartOf(stream: seq<byte>, delimiter: seq<byte>): Progress {
    match Search(stream, delimiter, 0)
    case Some(p) => AfterDelimiter(stream[..p], stream[p + |delimiter|..])
    case None =>
      if |stream| < |delimiter| then Progress(InBody, [], stream)
      else
        var n := |stream| - |delimiter|;
        Progress(InBody, stream[..n], stream[n..])
  }

  /** The receiver, which has got these bytes, is called now: the body has ended, or more of it is certain. */
  predicate HandsOver(received: seq<byte>, stream: seq<byte>, delimiter: seq<byte>) {
    PartOf(stream, delimiter).phase != InBody || PartOf(stream, delimiter).received != received
  }

  lemma EndedBody(stream: seq<byte>, delimiter: seq<byte>)
    requires Search(stream, delimiter, 0).Some?
    ensures PartOf(stream, delimiter).phase != InBody
  {
  }

  // ---------- Behind the closing dashes ----------

  /** The buffer of a closed form, or what follows a line break with which the form was opened again. */
  datatype Tail = Waiting(held: seq<byte>) | Reopened(rest: seq<byte>)

  function Behind(buffer: seq<byte>): Tail {
    if CRLF <= buffer then Reopened(buffer[2..])
    else if DASH <= buffer then Waiting([])
    else Waiting(buffer)
  }

  predicate Closes(buffer: seq<byte>) {
    DASH <= buffer && !(CRLF <= buffer)
  }

  /** The pieces that arrive once the form is closed: here it matters how the bytes are cut. */
  function Epilogue(held: seq<byte>, pieces: seq<seq<byte>>): Tail
    decreases |pieces|
  {
    if pieces == [] then Waiting(held) else
    match Behind(held + pieces[0])
    case Waiting(h) => Epilogue(h, pieces[1..])
    case Reopened(rest) => Reopened(rest + Joined(pieces[1..]))
  }

  function Joined(pieces: seq<seq<byte>>): seq<byte>
    decreases |pieces|
  {
    if pieces == [] then [] else Joined(pieces[..|pieces| - 1]) + pieces[|pieces| - 1]
  }

  lemma {:induction false} EpilogueSnoc(held: seq<byte>, pieces: seq<seq<byte>>, piece: seq<byte>)
    requires Epilogue(held, pieces).Waiting?
    ensures Epilogue(held, pieces + [piece]) == Behind(Epilogue(held, pieces).held + piece)
    decreases |pieces|
  {
    hide Behind;
    if pieces == [] {
      assert [piece][1..] == [];
      EpilogueOne(held, piece);
    } else {
      assert (pieces + [piece])[1..] == pieces[1..] + [piece];
      EpilogueSnoc(Behind(held + pieces[0]).held, pieces[1..], piece);
    }
  }

  lemma EpilogueOne(held: seq<byte>, piece: seq<byte>)
    ensures Epilogue(held, [piece]) == Behind(held + piece)
  {
    assert [piece][1..] == [];
  }

  /** It starts with neither a line break nor two dashes. */
  predicate Undecided(held: seq<byte>) {
    !(CRLF <= held) && !(DASH <= held)
  }

  /**
   While it stays closed, the buffer holds the last pieces: those behind the one that made it start
   with two dashes, or all of them when none did.
   */
  lemma {:induction false} WaitingHolds(pieces: seq<seq<byte>>) returns (j: nat)
    requires Epilogue([], pieces).Waiting?
    ensures j <= |pieces| && Epilogue([], pieces).held == Joined(pieces[j..]) && Undecided(Joined(pieces[j..]))
    ensures j > 0 ==> exists i :: 0 <= i < j && DASH <= Joined(pieces[i..j])
    ensures forall n :: j <= n <= |pieces| ==> Undecided(Joined(pieces[j..n]))
    decreases |pieces|
  {
    hide Undecided, Epilogue;
    if pieces == [] {
      j := 0;
      NothingWaits(pieces);
    } else {
      var n := |pieces| - 1;
      var before, piece := pieces[..n], pieces[n];
      assert pieces == before + [piece];
      WaitingBefore([], pieces, n);
      var k := WaitingHolds(before);
      EpilogueSnoc([], before, piece);
      JoinedLast(pieces, k);
      var buffer := Joined(pieces[k..]);
      BehindWaits(buffer);
      forall m | k <= m <= n ensures Undecided(Joined(pieces[k..m])) {
        assert before[k..m] == pieces[k..m];
      }
      if DASH <= buffer {
        j := |pieces|;
        assert pieces[k..j] == pieces[k..];
        NothingWaits(pieces);
      } else {
        j := k;
        if k > 0 {
          var i :| 0 <= i < k && DASH <= Joined(before[i..k]);
          assert before[i..k] == pieces[i..k];
        }
        assert pieces[j..|pieces|] == pieces[j..];
      }
    }
  }

  lemma NothingWaits(pieces: seq<seq<byte>>)
    ensures Epilogue([], []) == Waiting([]) && Joined([]) == [] && Undecided([])
    ensures pieces[|pieces|..] == [] && pieces[|pieces|..|pieces|] == []
  {
  }

  lemma BehindWaits(buffer: seq<byte>)
    requires Behind(buffer).Waiting?
    ensures DASH <= buffer ==> Behind(buffer).held == []
    ensures !(DASH <= buffer) ==> Behind(buffer).held == buffer && Undecided(buffer)
  {
  }

  lemma JoinedLast(pieces: seq<seq<byte>>, k: nat)
    requires k < |pieces|
    ensures Joined(pieces[k..]) == Joined(pieces[..|pieces| - 1][k..]) + pieces[|pieces| - 1]
  {
    var n := |pieces| - 1;
    assert pieces[k..][..n - k] == pieces[..n][k..];
  }

  lemma {:induction false} WaitingBefore(held: seq<byte>, pieces: seq<seq<byte>>, n: nat)
    requires n <= |pieces| && Epilogue(held, pieces).Waiting?
    ensures Epilogue(held, pieces[..n]).Waiting?
    decreases n
  {
    hide Behind;
    if n > 0 {
      assert pieces[..n][1..] == pieces[1..][..n - 1];
      WaitingBefore(Behind(held + pieces[0]).held, pieces[1..], n - 1);
    }
  }

  /** A closed form is opened again exactly when some piece makes the buffer start with a line break. */
  lemma {:induction false} ReopenedExactly(held: seq<byte>, pieces: seq<seq<byte>>)
    ensures Epilogue(held, pieces).Reopened? <==>
            exists n :: 0 <= n < |pieces| && StartsLine(held, pieces, n)
    decreases |pieces|
  {
    hide StartsLine;
    if pieces != [] {
      StartsLineFirst(held, pieces);
      if Behind(held + pieces[0]).Waiting? {
        var h, rest := Behind(held + pieces[0]).held, pieces[1..];
        ReopenedExactly(h, rest);
        forall n | 0 <= n < |rest| ensures StartsLine(h, rest, n) <==> StartsLine(held, pieces, n + 1) {
          StartsLineLater(held, pieces, n);
        }
        if n :| 0 <= n < |rest| && StartsLine(h, rest, n) {
          assert StartsLine(held, pieces, n + 1);
        }
        if n :| 0 <= n < |pieces| && StartsLine(held, pieces, n) {
          assert StartsLine(h, rest, n - 1) <==> StartsLine(held, pieces, n - 1 + 1);
        }
      }
    }
  }

  predicate StartsLine(held: seq<byte>, pieces: seq<seq<byte>>, n: nat)
    requires n < |pieces|
  {
    Epilogue(held, pieces[..n]).Waiting? && CRLF <= Epilogue(held, pieces[..n]).held + pieces[n]
  }

  /** What follows that line break is everything that comes behind it, in this piece and in the later ones. */
  lemma {:induction false} ReopenedHolds(held: seq<byte>, pieces: seq<seq<byte>>) returns (n: nat)
    requires Epilogue(held, pieces).Reopened?
    ensures n < |pieces| && StartsLine(held, pieces, n)
    ensures Epilogue(held, pieces[..n]).held + pieces[n] + Joined(pieces[n + 1..])
            == CRLF + Epilogue(held, pieces).rest
    decreases |pieces|
  {
    hide StartsLine, Joined;
    if Behind(held + pieces[0]).Reopened? {
      n := 0;
      StartsLineFirst(held, pieces);
      assert pieces[..0] == [];
      var buffer := held + pieces[0];
      assert buffer == CRLF + buffer[2..];
    } else {
      var h := Behind(held + pieces[0]).held;
      var m := ReopenedHolds(h, pieces[1..]);
      n := m + 1;
      StartsLineLater(held, pieces, m);
      assert pieces[..n][1..] == pieces[1..][..m];
    }
  }

  lemma StartsLineFirst(held: seq<byte>, pieces: seq<seq<byte>>)
    requires pieces != []
    ensures StartsLine(held, pieces, 0) <==> Behind(held + pieces[0]).Reopened?
  {
    assert pieces[..0] == [];
  }

  lemma StartsLineLater(held: seq<byte>, pieces: seq<seq<byte>>, n: nat)
    requires n + 1 < |pieces| && Behind(held + pieces[0]).Waiting?
    ensures StartsLine(held, pieces, n + 1) <==> StartsLine(Behind(held + pieces[0]).held, pieces[1..], n)
  {
    hide Behind;
    assert pieces[..n + 1][1..] == pieces[1..][..n];
  }

  /**
   The same bytes in the piece that closes the form are dropped; cut off behind the dashes
   they open it again exactly when they start with a line break.
   */
  lemma CutBehindClose(t: seq<byte>, s: seq<byte>, more: seq<byte>)
    requires PartOf(t, s).phase.Closed?
    ensures PartOf(t + more, s) == PartOf(t, s)
    ensures Epilogue([], [more]).Reopened? <==> CRLF <= more
  {
    var p := Search(t, s, 0).value;
    OccursInPrefix(t, more, s, p);
    NoneBeforeGrows(t, more, s, p);
    SearchIs(t + more, s, p);
    assert (t + more)[..p] == t[..p];
    assert (t + more)[p + |s|..] == t[p + |s|..] + more;
    AfterDashes(t[p + |s|..], more);
    EpilogueOne([], more);
    assert [] + more == more;
  }

  lemma AfterDashes(rest: seq<byte>, more: seq<byte>)
    requires DASH <= rest
    ensures DASH <= rest + more && !(CRLF <= rest + more)
  {
    assert (rest + more)[..2] == rest[..2];
    assert (rest + more)[0] == 45;
  }

  /** For instance an empty body, the closing dashes, and a line with one letter behind them. */
  lemma EpilogueMayReopen(s: seq<byte>, letter: byte)
    ensures var t, more := s + DASH, CRLF + [letter] + CRLF;
            && PartOf(t, s) == Progress(Closed, [], []) == PartOf(t + more, s)
            && Epilogue([], [more]) == Reopened([letter] + CRLF)
  {
    var t, more := s + DASH, CRLF + [letter] + CRLF;
    assert t[0..|s|] == s && t[|s|..] == DASH;
    SearchIs(t, s, 0);
    assert DASH[0] != CRLF[0];
    CutBehindClose(t, s, more);
    EpilogueOne([], more);
    assert [] + more == CRLF + ([letter] + CRLF);
  }

  // ---------- More of the stream ----------

  lemma OccursInPrefix(t: seq<byte>, more: seq<byte>, s: seq<byte>, i: nat)
    requires i + |s| <= |t|
    ensures Occurs(t + more, s, i) <==> Occurs(t, s, i)
  {
    assert (t + more)[i..i + |s|] == t[i..i + |s|];
  }

  lemma OccursInRest(t: seq<byte>, s: seq<byte>, e: nat, i: nat)
    requires e <= |t|
    ensures Occurs(t[e..], s, i) <==> Occurs(t, s, e + i)
  {
    if e + i + |s| <= |t| {
      assert t[e..][i..i + |s|] == t[e + i..e + i + |s|];
    }
  }

  /** What has been handed over cannot turn out to be part of a delimiter later. */
  lemma NoneBeforeGrows(t: seq<byte>, more: seq<byte>, s: seq<byte>, n: nat)
    requires NoneBefore(t, s, n) && n + |s| <= |t| + 1
    ensures NoneBefore(t + more, s, n)
  {
    forall i | 0 <= i < n ensures !Occurs(t + more, s, i) {
      OccursInPrefix(t, more, s, i);
    }
  }

  lemma NoneBeforeInParts(t: seq<byte>, s: seq<byte>, e: nat, n: nat)
    requires e <= |t| && NoneBefore(t, s, e) && NoneBefore(t[e..], s, n)
    ensures NoneBefore(t, s, e + n)
  {
    forall i | 0 <= i < e + n ensures !Occurs(t, s, i) {
      if e <= i {
        OccursInRest(t, s, e, i - e);
      }
    }
  }

  /** Nothing is handed over early: what was received stays a prefix of what will be, whatever comes next. */
  lemma ReceivedGrows(t: seq<byte>, more: seq<byte>, s: seq<byte>)
    ensures PartOf(t, s).received <= PartOf(t + more, s).received
  {
    var before, after := Search(t, s, 0), Search(t + more, s, 0);
    if before.Some? {
      OccursInPrefix(t, more, s, before.value);
      NoneBeforeGrows(t, more, s, before.value);
      SearchIs(t + more, s, before.value);
    } else if |s| <= |t| {
      var n := |t| - |s|;
      if after.Some? && after.value < n {
        OccursInPrefix(t, more, s, after.value);
      }
      assert t[..n] == (t + more)[..n];
    }
  }

  /**
   A content in which the delimiter does not start comes back exactly.  A line break behind the
   delimiter leads on to the next part, two dashes close the form and drop what else there is, and as
   long as neither has arrived the bytes are kept.
   */
  lemma ContentComesBack(content: seq<byte>, s: seq<byte>, tail: seq<byte>)
    requires NoneBefore(content + s, s, |content|)
    ensures var p := PartOf(content + s + tail, s);
            && p.received == content
            && (p.phase == NextPart <==> |tail| >= 2 && tail[0] == CR && tail[1] == LF)
            && (p.phase == Closed <==> |tail| >= 2 && tail[0] == tail[1] == '-' as byte)
            && (p.phase == NextPart ==> tail == [CR, LF] + p.held)
            && (p.phase == Closed ==> p.held == [])
            && (p.phase != NextPart && p.phase != Closed ==> p.phase == AtBoundary && p.held == tail)
  {
    NoneBeforeGrows(content + s, tail, s, |content|);
    var t := content + s + tail;
    assert t[|content|..|content| + |s|] == s && t[..|content|] == content && t[|content| + |s|..] == tail;
    SearchIs(t, s, |content|);
  }

  /** Without a delimiter nothing is lost: what is not handed over is kept, as many bytes as the delimiter has. */
  lemma NothingIsLost(t: seq<byte>, s: seq<byte>)
    requires forall i: nat :: !Occurs(t, s, i)
    ensures var p := PartOf(t, s);
            && p.phase == InBody && p.received + p.held == t
            && |p.held| == if |t| < |s| then |t| else |s|
  {
    hide Occurs;
    var n := if |t| < |s| then 0 else |t| - |s|;
    assert t[..n] + t[n..] == t;
  }

  lemma FoundBehind(t: seq<byte>, s: seq<byte>, e: nat, pos: nat)
    requires e <= |t| && NoneBefore(t, s, e) && NoneBefore(t[e..], s, pos) && Occurs(t[e..], s, pos)
    ensures Search(t, s, 0) == Some(e + pos)
    ensures t[..e] + t[e..][..pos] == t[..e + pos]
    ensures t[e..][pos + |s|..] == t[e + pos + |s|..]
  {
    NoneBeforeInParts(t, s, e, pos);
    OccursInRest(t, s, e, pos);
    SearchIs(t, s, e + pos);
  }

  lemma NotFoundBehind(t: seq<byte>, s: seq<byte>, e: nat)
    requires e + |s| <= |t| && |s| > 0 && NoneBefore(t, s, e) && NoneBefore(t[e..], s, |t| - e)
    ensures var n := |t| - e - |s|;
            PartOf(t, s) == if n == 0 then Progress(InBody, t[..e], t[e..])
                else Progress(InBody, t[..e] + t[e..][..n], t[e..][n..])
  {
    NoneBeforeInParts(t, s, e, |t| - e);
    SearchIs(t, s, |t|);
    var n := |t| - e - |s|;
    assert t[..e] + t[e..][..n] == t[..|t| - |s|] && t[e..][n..] == t[|t| - |s|..];
  }

  lemma OccursByByte(t: seq<byte>, s: seq<byte>, i: nat)
    ensures Occurs(t, s, i) <==> i + |s| <= |t| && forall k :: 0 <= k < |s| ==> t[i + k] == s[k]
  {
    if i + |s| <= |t| {
      var part := t[i..i + |s|];
      assert forall k :: 0 <= k < |s| ==> part[k] == t[i + k];
      if forall k :: 0 <= k < |s| ==> t[i + k] == s[k] {
        assert t[i..i + |s|] == s;
      }
    }
  }

  lemma NotHere(t: seq<byte>, s: seq<byte>, i: nat)
    requires |s| > 0 && i < |t| && t[i] != s[0]
    ensures !Occurs(t, s, i)
  {
    OccursByByte(t, s, i);
  }

  lemma NoneBeforeNext(t: seq<byte>, s: seq<byte>, n: nat)
    requires NoneBefore(t, s, n) && !Occurs(t, s, n)
    ensures NoneBefore(t, s, n + 1)
  {
    hide Occurs;
  }

  lemma NoneToTheEnd(t: seq<byte>, s: seq<byte>, n: nat, m: nat)
    requires NoneBefore(t, s, n) && n + |s| > |t|
    ensures NoneBefore(t, s, m)
  {
  }

  lemma SliceOfPrefix(t: seq<byte>, u: seq<byte>, lo: nat, hi: nat)
    requires lo <= hi <= |u| <= |t| && t[..|u|] == u
    ensures t[lo..hi] == u[lo..hi]
  {
    var found, expected := t[lo..hi], u[lo..hi];
    forall k | 0 <= k < hi - lo ensures found[k] == expected[k] {
      assert t[..|u|][lo + k] == u[lo + k];
    }
  }

  lemma NothingJoined(start: seq<byte>, pieces: seq<seq<byte>>)
    ensures start + Joined(pieces[..0]) == start
  {
  }

  lemma JoinedSnoc(start: seq<byte>, pieces: seq<seq<byte>>, n: nat)
    requires n < |pieces|
    ensures start + Joined(pieces[..n]) + pieces[n] == start + Joined(pieces[..n + 1])
  {
    assert pieces[..n + 1][..n] == pieces[..n];
  }

  lemma NoneBeforeNothing(t: seq<byte>, s: seq<byte>)
    ensures NoneBefore(t, s, 0)
  {
  }

  method CopyIn(a: array<byte>, n: nat, data: seq<byte>)
    requires n + |data| <= a.Length
    modifies a
    ensures a[..n + |data|] == old(a[..n]) + data
  {
    for i := 0 to |data|
      invariant a[..n + i] == old(a[..n]) + data[..i]
    {
      a[n + i] := data[i];
      assert a[..n + i + 1] == a[..n + i] + [data[i]];
    }
  }

  class FormDataParser {
    const delimiter: seq<byte>
    var buf: array<byte>
    var spos: nat
    var epos: nat
    var state: nat
    var isValid: bool
    /** What the content callbacks of the current part were given. */
    var received: seq<byte>
    /** Every byte of the part so far, up to the piece that closes the form. */
    ghost var stream: seq<byte>
    /** The pieces behind that one. */
    ghost var epilogue: seq<seq<byte>>

    ghost predicate Shape() reads this {
      spos <= epos <= buf.Length
    }

    ghost function Contents(): seq<byte> reads this, buf requires Shape() {
      buf[spos..epos]
    }

    /** Before a pass over the buffer: what is not handed over is in the buffer, and no delimiter starts before it. */
    ghost predicate Pending() reads this, buf {
      && Shape() && |delimiter| > 2 && state == 3
      && |received| <= |stream| && received == stream[..|received|] && Contents() == stream[|received|..]
      && NoneBefore(stream, delimiter, |received|)
      && (received == [] || |delimiter| <= |Contents()|)
    }

    /** Right behind the delimiter that ended the body. */
    ghost predicate Delimited() reads this, buf {
      && Shape() && |delimiter| > 2 && state == 4 && !isValid
      && var p := Search(stream, delimiter, 0);
         p.Some? && received == stream[..p.value] && Contents() == stream[p.value + |delimiter|..]
    }

    ghost predicate Held(p: Progress) reads this, buf requires Shape() {
      received == p.received && Contents() == p.held
    }

    /** After it: everything is determined by the stream. */
    ghost predicate Settled() reads this, buf {
      && Shape() && |delimiter| > 2
      && var p := PartOf(stream, delimiter);
         Held(p) && state == (match p.phase case InBody => 3 case NextPart => 1 case _ => 4)
             && isValid == p.phase.Closed?
    }

    /** Once the form is closed the pieces behind it count one by one. */
    ghost predicate AfterClose() reads this, buf {
      && Shape() && |delimiter| > 2 && isValid
      && PartOf(stream, delimiter).phase.Closed? && received == PartOf(stream, delimiter).received
      && InTail(Epilogue([], epilogue))
    }

    ghost predicate InTail(tail: Tail) reads this, buf requires Shape() {
      match tail
      case Waiting(held) => state == 4 && Contents() == held
      case Reopened(rest) => state == 1 && Contents() == rest
    }

    constructor (boundary: seq<byte>)
      ensures Shape() && Contents() == [] && state == 0 && delimiter == CRLF + DASH + boundary && fresh(buf)
    {
      delimiter := CRLF + DASH + boundary;
      buf, spos, epos, state, isValid := new byte[0], 0, 0, 0, false;
      received, stream, epilogue := [], [], [];
    }

    /** The last header line is empty: the body starts behind its line break. */
    method EnterBody()
      requires Shape() && state == 2 && CRLF <= Contents() && |delimiter| > 2
      modifies this
      ensures Pending() && stream == old(Contents())[2..] && received == [] && epilogue == [] && buf == old(buf)
    {
      stream, epilogue := Contents()[2..], [];
      BufErase(2);
      state, received := 3, [];
    }

    method BufErase(n: nat)
      requires Shape() && n <= |Contents()|
      modifies this`spos
      ensures Shape() && Contents() == old(Contents())[n..]
    {
      spos := spos + n;
    }

    method BufStartsWith(s: seq<byte>) returns (r: bool)
      requires Shape()
      ensures r <==> s <= Contents()
    {
      r := StartsWith(spos, s);
      assert r <==> Occurs(Contents(), s, 0);
    }

    method StartsWith(from: nat, s: seq<byte>) returns (r: bool)
      requires Shape() && spos <= from <= epos
      ensures r <==> Occurs(Contents(), s, from - spos)
    {
      hide Occurs;
      ghost var t := Contents();
      OccursByByte(t, s, from - spos);
      if epos - from < |s| {
        return false;
      }
      for i := 0 to |s|
        invariant forall k :: 0 <= k < i ==> t[from - spos + k] == s[k]
      {
        assert t[from - spos + i] == buf[from + i];
        if buf[from + i] != s[i] {
          return false;
        }
      }
      return true;
    }

    /** The offset of the first occurrence, or the size of the buffer. */
    method BufFind(s: seq<byte>) returns (pos: nat)
      requires Shape() && |s| > 0
      ensures pos <= |Contents()| && NoneBefore(Contents(), s, pos)
      ensures pos < |Contents()| ==> Occurs(Contents(), s, pos)
    {
      hide Occurs, NoneBefore;
      ghost var t := Contents();
      NoneBeforeNothing(t, s);
      var off := spos;
      while off < epos
        invariant spos <= off <= epos
        invariant NoneBefore(t, s, off - spos)
      {
        pos := off;
        while pos < epos && buf[pos] != s[0]
          invariant off <= pos <= epos
          invariant NoneBefore(t, s, pos - spos)
        {
          assert t[pos - spos] == buf[pos];
          NotHere(t, s, pos - spos);
          NoneBeforeNext(t, s, pos - spos);
          pos := pos + 1;
        }
        if pos == epos {
          return epos - spos;
        }
        if |s| > epos - pos {
          NoneToTheEnd(t, s, pos - spos, epos - spos);
          return epos - spos;
        }
        var here := StartsWith(pos, s);
        if here {
          return pos - spos;
        }
        NoneBeforeNext(t, s, pos - spos);
        off := pos + 1;
      }
      return epos - spos;
    }

    /** Moves the unread bytes to the front, in place, grows the array when it is too short, and appends. */
    method BufAppend(data: seq<byte>)
      requires Shape()
      modifies this`buf, this`spos, this`epos, buf
      ensures Shape() && Contents() == old(Contents()) + data
      ensures buf == old(buf) || fresh(buf)
    {
      MoveToFront();
      if epos + |data| > buf.Length {
        Resize(epos + |data|);
      }
      CopyIn(buf, epos, data);
      epos := epos + |data|;
    }

    method MoveToFront()
      requires Shape()
      modifies this`spos, this`epos, buf
      ensures Shape() && spos == 0 && Contents() == old(Contents())
    {
      var a, from, remaining := buf, spos, epos - spos;
      if remaining > 0 && from > 0 {
        for i := 0 to remaining
          invariant buf == a && a[..i] == old(a[from..from + i])
          invariant forall k :: i <= k < a.Length ==> a[k] == old(a[k])
        {
          a[i] := a[from + i];
        }
      }
      spos, epos := 0, remaining;
    }

    method Resize(size: nat)
      requires Shape() && buf.Length <= size
      modifies this`buf
      ensures Shape() && fresh(buf) && buf.Length == size && Contents() == old(Contents())
    {
      var a, bigger := buf, new byte[size];
      for i := 0 to a.Length
        invariant bigger[..i] == a[..i]
      {
        bigger[i] := a[i];
      }
      buf := bigger;
      SliceOfPrefix(bigger[..], a[..], spos, epos);
      assert bigger[spos..epos] == bigger[..][spos..epos] && a[spos..epos] == a[..][spos..epos];
      assert bigger[..a.Length] == bigger[..][..a.Length];
    }

    /** What the receiver is given; accepts is its answer, which it gives at most once in a call. */
    method Receive(n: nat, accepts: bool) returns (ok: bool)
      requires Shape() && n <= |Contents()|
      modifies this`received, this`isValid
      ensures ok == accepts
      ensures ok ==> received == old(received) + Contents()[..n] && isValid == old(isValid)
      ensures !ok ==> received == old(received) && !isValid
    {
      if accepts {
        received := received + buf[spos..spos + n];
      } else {
        isValid := false;
      }
      return accepts;
    }

    /**
     One call on the next piece.  Up to the piece that closes the form, and unless the receiver
     refuses, what it has been given and what is held back depend on the bytes so far and not
     on how they were cut; behind it they depend on the single pieces.
     */
    method Parse(piece: seq<byte>, accepts: bool) returns (ok: bool)
      requires if isValid then AfterClose() else (Pending() || Settled()) && epilogue == []
      requires state == 3 || state == 4
      modifies this, buf
      ensures buf == old(buf) || fresh(buf)
      ensures Shape()
      ensures ok <==> accepts || old(isValid) || old(state) == 4 || !HandsOver(old(received), stream, delimiter)
      ensures !ok ==> received == old(received) && !isValid
      ensures old(isValid) ==> ok && AfterClose() && stream == old(stream) && epilogue == old(epilogue) + [piece]
      ensures !old(isValid) ==> stream == old(stream) + piece && epilogue == []
      ensures !old(isValid) && ok ==> Settled() && (isValid ==> AfterClose())
      ensures ok ==> state == 1 || state == 3 || state == 4
    {
      if isValid {
        ParseEpilogue(piece);
        ok := true;
      } else {
        ok := ParsePart(piece, accepts);
      }
    }

    method ParsePart(piece: seq<byte>, accepts: bool) returns (ok: bool)
      requires (Pending() || Settled()) && epilogue == []
      requires !isValid && (state == 3 || state == 4)
      modifies this, buf
      ensures Shape() && stream == old(stream) + piece && epilogue == [] && (buf == old(buf) || fresh(buf))
      ensures ok ==> Settled() && (state == 1 || state == 3 || state == 4) && (isValid ==> AfterClose())
      ensures ok <==> accepts || old(state) == 4 || !HandsOver(old(received), stream, delimiter)
      ensures !ok ==> received == old(received) && !isValid
    {
      hide PartOf, NoneBefore, Occurs, AfterDelimiter, HandsOver;
      if state == 3 {
        SettledBody();
        MoreInBody(piece);
      } else {
        SettledBoundary();
        MoreAfterBody(piece);
      }
      BufAppend(piece);
      stream := stream + piece;
      ok := true;
      if state == 3 {
        ok := ParseBody(accepts);
      }
      if ok && state == 4 {
        FinishPart();
      }
      if isValid {
        JustClosed();
      }
    }

    method FinishPart()
      requires Delimited()
      modifies this`spos, this`state, this`isValid
      ensures Settled()
    {
      hide PartOf;
      DelimitedPart();
      ParseBoundary();
    }

    /** The same state 4, entered once more with whatever has arrived since the form was closed. */
    method ParseEpilogue(piece: seq<byte>)
      requires AfterClose() && state == 4
      modifies this, buf
      ensures AfterClose() && (buf == old(buf) || fresh(buf))
      ensures stream == old(stream) && received == old(received) && epilogue == old(epilogue) + [piece]
    {
      hide PartOf, Epilogue, Behind, Closes;
      EpilogueSnoc([], epilogue, piece);
      BufAppend(piece);
      ParseBoundary();
      epilogue := epilogue + [piece];
    }

    /** Feeds all pieces, unless the parser goes on to the headers of another part before. */
    method ParseAll(pieces: seq<seq<byte>>) returns (used: nat, ghost closing: nat)
      requires Pending() && !isValid && epilogue == []
      modifies this, buf
      ensures closing <= used <= |pieces| && (used < |pieces| ==> state == 1)
      ensures stream == old(stream) + Joined(pieces[..closing]) && epilogue == pieces[closing..used]
      ensures if used == 0 then Pending() else if isValid then AfterClose() else Settled()
      ensures epilogue != [] ==> isValid
    {
      hide PartOf, Joined, Epilogue, Pending, Settled, AfterClose;
      NothingJoined(stream, pieces);
      PendingIsBody();
      used, closing := 0, 0;
      while used < |pieces| && state != 1
        invariant closing <= used <= |pieces| && (buf == old(buf) || fresh(buf))
        invariant if used == 0 then Pending() && !isValid else if isValid then AfterClose() else Settled()
        invariant state == 1 || state == 3 || state == 4
        invariant stream == old(stream) + Joined(pieces[..closing]) && epilogue == pieces[closing..used]
        invariant !isValid ==> closing == used
      {
        JoinedSnoc(old(stream), pieces, used);
        if !isValid {
          closing := used + 1;
        }
        var ok := Parse(pieces[used], true);
        used := used + 1;
      }
    }

    /** State 3 of the parser, up to the end of the buffer or into state 4. */
    method ParseBody(accepts: bool) returns (ok: bool)
      requires Pending() && !isValid
      modifies this`spos, this`state, this`isValid, this`received
      ensures Shape()
      ensures ok ==> Delimited() || (Settled() && state == 3)
      ensures ok <==> accepts || !HandsOver(old(received), stream, delimiter)
      ensures !ok ==> received == old(received) && !isValid
    {
      if |delimiter| > epos - spos {
        SearchIs(stream, delimiter, |received|);
        return true;
      }
      var pos := BufFind(delimiter);
      if pos < epos - spos {
        ok := EndBody(pos, accepts);
      } else {
        ok := HoldBack(accepts);
      }
    }

    /** The delimiter is there: everything before it goes to the receiver. */
    method EndBody(pos: nat, accepts: bool) returns (ok: bool)
      requires Pending() && !isValid
      requires pos < |Contents()| && NoneBefore(Contents(), delimiter, pos) && Occurs(Contents(), delimiter, pos)
      modifies this`spos, this`state, this`isValid, this`received
      ensures Shape() && ok == accepts && HandsOver(old(received), stream, delimiter)
      ensures ok ==> Delimited()
      ensures !ok ==> received == old(received) && !isValid
    {
      hide PartOf;
      FoundBehind(stream, delimiter, |received|, pos);
      EndedBody(stream, delimiter);
      ok := Receive(pos, accepts);
      if ok {
        BufErase(pos + |delimiter|);
        state := 4;
      }
    }

    /** It is not: as many bytes stay in the buffer as the delimiter has. */
    method HoldBack(accepts: bool) returns (ok: bool)
      requires Pending() && !isValid
      requires |delimiter| <= |Contents()| && NoneBefore(Contents(), delimiter, |Contents()|)
      modifies this`spos, this`isValid, this`received
      ensures Shape()
      ensures ok ==> Settled() && state == 3
      ensures ok <==> accepts || !HandsOver(old(received), stream, delimiter)
      ensures !ok ==> received == old(received) && !isValid
    {
      NotFoundBehind(stream, delimiter, |received|);
      hide PartOf, NoneBefore;
      var n := epos - spos - |delimiter|;
      if n == 0 {
        return true;
      }
      ok := Receive(n, accepts);
      if ok {
        BufErase(n);
      }
    }

    /** State 4: a line break leads on to the next part, two dashes close the form, anything else waits. */
    method ParseBoundary()
      requires Shape() && state == 4
      modifies this`spos, this`state, this`isValid
      ensures Shape() && InTail(Behind(old(Contents())))
      ensures isValid == (old(isValid) || Closes(old(Contents())))
    {
      if |CRLF| > epos - spos {
        return;
      }
      var next := BufStartsWith(CRLF);
      if next {
        BufErase(|CRLF|);
        state := 1;
      } else {
        var closes := BufStartsWith(DASH);
        if closes {
          BufErase(|DASH|);
          isValid := true;
          BufErase(epos - spos);
        }
      }
    }

    lemma PendingIsBody()
      requires Pending()
      ensures Shape() && state == 3
    {
    }

    lemma DelimitedPart()
      requires Delimited()
      ensures PartOf(stream, delimiter) == AfterDelimiter(received, Contents())
    {
    }

    lemma JustClosed()
      requires Settled() && isValid && epilogue == []
      ensures AfterClose()
    {
    }

    lemma SettledBody()
      requires (Pending() || Settled()) && state == 3
      ensures Pending()
    {
    }

    lemma SettledBoundary()
      requires Settled() && state == 4 && !isValid
      ensures Delimited()
    {
    }

    lemma MoreInBody(piece: seq<byte>)
      requires Pending()
      ensures NoneBefore(stream + piece, delimiter, |received|)
      ensures received == (stream + piece)[..|received|]
      ensures Contents() + piece == (stream + piece)[|received|..]
    {
      if received != [] {
        NoneBeforeGrows(stream, piece, delimiter, |received|);
      }
    }

    lemma MoreAfterBody(piece: seq<byte>)
      requires Delimited()
      ensures Search(stream + piece, delimiter, 0) == Search(stream, delimiter, 0)
      ensures var p := Search(stream, delimiter, 0).value;
              && received == (stream + piece)[..p]
              && Contents() + piece == (stream + piece)[p + |delimiter|..]
    {
      var p := Search(stream, delimiter, 0).value;
      NoneBeforeGrows(stream, piece, delimiter, p);
      OccursInPrefix(stream, piece, delimiter, p);
      SearchIs(stream + piece, delimiter, p);
    }
  }
}

/**
 A recursive-descent parser for the printed language, and the round trip: what is printed
 parses back to exactly the program it was printed for, unless a single literal community
 is deleted somewhere; then it does not parse at all.
 */
module BirdParser {
  import opened Options
  import opened BirdSource
  import opened BirdTarget

  datatype Parsed<+T> = Parsed(value: T, rest: seq<Token>)

  predicate Starts(ts: seq<Token>, t: Token) {
    |ts| > 0 && ts[0] == t
  }

  /** The rest after the given tokens. */
  function Expect(ts: seq<Token>, expected: seq<Token>): (r: Option<seq<Token>>)
    ensures r.Some? ==> ts == expected + r.value
  {
    if |ts| >= |expected| && ts[..|expected|] == expected then Some(ts[|expected|..]) else None
  }

  // ---------- Parser ----------

  function ParseNums(ts: seq<Token>): (r: Option<Parsed<seq<nat>>>)
    ensures r.Some? ==> |r.value.rest| < |ts|
    decreases |ts|
  {
    if |ts| == 0 || !ts[0].Num? then None
    else if |ts| > 1 && ts[1] == Comma then
      match ParseNums(ts[2..])
      case None => None
      case Some(p) => Some(Parsed([ts[0].n] + p.value, p.rest))
    else Some(Parsed([ts[0].n], ts[1..]))
  }

  function ParseMask(ts: seq<Token>): (r: Parsed<seq<nat>>)
    ensures |r.rest| <= |ts|
    decreases |ts|
  {
    if |ts| == 0 || !ts[0].Num? then Parsed([], ts) else
    var p := ParseMask(ts[1..]);
    Parsed([ts[0].n] + p.value, p.rest)
  }

  function ParseComm(ts: seq<Token>): (r: Option<Parsed<Community>>)
    ensures r.Some? ==> |r.value.rest| < |ts|
  {
    if !Starts(ts, LParen) then None else
    match ParseNums(ts[1..])
    case None => None
    case Some(p) => if Starts(p.rest, RParen) then Some(Parsed(p.value, p.rest[1..])) else None
  }

  function ParseComms(ts: seq<Token>): (r: Option<Parsed<seq<Community>>>)
    ensures r.Some? ==> |r.value.rest| < |ts|
    decreases |ts|
  {
    match ParseComm(ts)
    case None => None
    case Some(c) =>
      if !Starts(c.rest, Comma) then Some(Parsed([c.value], c.rest)) else
      match ParseComms(c.rest[1..])
      case None => None
      case Some(p) => Some(Parsed([c.value] + p.value, p.rest))
  }

  function ParseRange(ts: seq<Token>): (r: Option<Parsed<Option<Range>>>)
    ensures r.Some? ==> |r.value.rest| <= |ts|
  {
    if !Starts(ts, LBrace) then Some(Parsed(None, ts))
    else if |ts| >= 5 && ts[1].Num? && ts[2] == Comma && ts[3].Num? && ts[4] == RBrace then
      Some(Parsed(Some(Range(ts[1].n, ts[3].n)), ts[5..]))
    else None
  }

  function ParseEntry(ts: seq<Token>): (r: Option<Parsed<Entry>>)
    ensures r.Some? ==> |r.value.rest| < |ts|
  {
    if |ts| < 2 || ts[0] != Nl || !ts[1].Net? then None else
    match ParseRange(ts[2..])
    case None => None
    case Some(range) => Some(Parsed(Entry(ts[1].pfx, range.value), range.rest))
  }

  function ParseEntries(ts: seq<Token>): (r: Option<Parsed<seq<Entry>>>)
    ensures r.Some? ==> |r.value.rest| < |ts|
    decreases |ts|
  {
    match ParseEntry(ts)
    case None => None
    case Some(e) =>
      if !Starts(e.rest, Comma) then Some(Parsed([e.value], e.rest)) else
      match ParseEntries(e.rest[1..])
      case None => None
      case Some(p) => Some(Parsed([e.value] + p.value, p.rest))
  }

  function ParseCmp(t: Token): Option<Cmp> {
    if t == Equals then Some(Eq) else if t == Tilde then Some(In) else None
  }

  function ParsePathOperand(ts: seq<Token>): (r: Option<Parsed<PathOperand>>)
    ensures r.Some? ==> |r.value.rest| < |ts|
  {
    if |ts| == 0 then None
    else if ts[0].Name? then Some(Parsed(PathName(ts[0].name), ts[1..]))
    else if ts[0] == LMask then
      var p := ParseMask(ts[1..]);
      if Starts(p.rest, RMask) then Some(Parsed(Mask(p.value), p.rest[1..])) else None
    else None
  }

  function ParseCommOperand(ts: seq<Token>): (r: Option<Parsed<CommOperand>>)
    ensures r.Some? ==> |r.value.rest| < |ts|
  {
    if |ts| == 0 then None
    else if ts[0].Name? then Some(Parsed(CommName(ts[0].name), ts[1..]))
    else if ts[0] == LBracket then
      match ParseComms(ts[1..])
      case None => None
      case Some(p) => if Starts(p.rest, RBracket) then Some(Parsed(CommSet(p.value), p.rest[1..])) else None
    else None
  }

  /** The tests that compare an attribute with a list; the attribute and the operator have been read. */
  function ParseListTest(attribute: Token, cmp: Cmp, ts: seq<Token>): (r: Option<Parsed<Test>>)
    ensures r.Some? ==> |r.value.rest| < |ts|
  {
    if attribute == KPath then
      match ParsePathOperand(ts)
      case None => None
      case Some(p) => Some(Parsed(PathTest(cmp, p.value), p.rest))
    else
      match ParseCommOperand(ts)
      case None => None
      case Some(p) => Some(Parsed(if attribute == KComm then CommTest(cmp, p.value) else ExtTest(cmp, p.value), p.rest))
  }

  /** net = ..., net.type = ... and source = ..., after the attribute and the equals sign. */
  function ParseValueTest(attribute: Token, ts: seq<Token>): (r: Option<Parsed<Test>>)
    requires |ts| > 0
    ensures r.Some? ==> |r.value.rest| < |ts|
  {
    if attribute == KNet && ts[0].Net? then
      match ParseRange(ts[1..])
      case None => None
      case Some(p) => Some(Parsed(NetTest(ts[0].pfx, p.value), p.rest))
    else if attribute == KNetType && (ts[0] == KIp4 || ts[0] == KIp6) then
      Some(Parsed(NetTypeTest(if ts[0] == KIp4 then V4 else V6), ts[1..]))
    else if attribute == KSource && (ts[0] == KRtsBgp || ts[0] == KRtsStatic) then
      Some(Parsed(SourceTest(if ts[0] == KRtsBgp then FromBgp else FromStatic), ts[1..]))
    else None
  }

  /** What stands between the parentheses of a test. */
  function ParseTestBody(ts: seq<Token>): (r: Option<Parsed<Test>>)
    ensures r.Some? ==> |r.value.rest| < |ts|
  {
    if |ts| < 3 then None
    else if ts[0] == KPath || ts[0] == KComm || ts[0] == KExt then
      if ParseCmp(ts[1]).None? then None else ParseListTest(ts[0], ParseCmp(ts[1]).value, ts[2..])
    else if ts[1] == Equals then ParseValueTest(ts[0], ts[2..])
    else None
  }

  function ParseTest(ts: seq<Token>): (r: Option<Parsed<Test>>)
    ensures r.Some? ==> |r.value.rest| < |ts|
  {
    if !Starts(ts, LParen) then None else
    match ParseTestBody(ts[1..])
    case None => None
    case Some(p) => if Starts(p.rest, RParen) then Some(Parsed(p.value, p.rest[1..])) else None
  }

  function ParseCondTail(acc: Cond, ts: seq<Token>): (r: Option<Parsed<Cond>>)
    ensures r.Some? ==> |r.value.rest| <= |ts|
    decreases |ts|
  {
    if Starts(ts, AndAnd) || Starts(ts, OrOr) then
      match ParseTest(ts[1..])
      case None => None
      case Some(p) => ParseCondTail(if ts[0] == AndAnd then Both(acc, p.value) else Either(acc, p.value), p.rest)
    else Some(Parsed(acc, ts))
  }

  function ParseCond(ts: seq<Token>): (r: Option<Parsed<Cond>>)
    ensures r.Some? ==> |r.value.rest| < |ts|
  {
    match ParseTest(ts)
    case None => None
    case Some(p) => ParseCondTail(One(p.value), p.rest)
  }

  /** The argument of add or delete. */
  function ParseCommArg(ts: seq<Token>): (r: Option<Parsed<CommArg>>)
    ensures r.Some? ==> |r.value.rest| < |ts|
  {
    if |ts| == 0 then None
    else if ts[0].Name? then Some(Parsed(ByName(ts[0].name), ts[1..]))
    else if ts[0] == LBracket then
      match ParseComms(ts[1..])
      case None => None
      case Some(cs) => if Starts(cs.rest, RBracket) then Some(Parsed(Literal(cs.value), cs.rest[1..])) else None
    else
      match ParseComm(ts)
      case None => None
      case Some(c) => Some(Parsed(Literal([c.value]), c.rest))
  }

  /** add(...); and delete(...); after the attribute. */
  function ParseCommEdit(ts: seq<Token>): (r: Option<Parsed<Simple>>)
    ensures r.Some? ==> |r.value.rest| < |ts|
  {
    if |ts| < 2 || (ts[0] != KAdd && ts[0] != KDelete) || ts[1] != LParen then None else
    match ParseCommArg(ts[2..])
    case None => None
    case Some(p) =>
      match Expect(p.rest, [RParen, Semi])
      case None => None
      case Some(rest) => Some(Parsed(if ts[0] == KAdd then AddComm(p.value) else DeleteComm(p.value), rest))
  }

  function ParseSimple(ts: seq<Token>): (r: Option<Parsed<Simple>>)
    ensures r.Some? ==> |r.value.rest| < |ts|
  {
    if |ts| < 2 then None
    else if ts[0] == KComm then ParseCommEdit(ts[1..])
    else if (ts[0] == KAccept || ts[0] == KReject) && ts[1] == Semi then
      Some(Parsed(if ts[0] == KAccept then Accept else Reject, ts[2..]))
    else if (ts[0] == KPref || ts[0] == KMed) && |ts| >= 4 && ts[1] == Equals && ts[2].Num? && ts[3] == Semi then
      Some(Parsed(if ts[0] == KPref then SetPref(ts[2].n) else SetMed(ts[2].n), ts[4..]))
    else if ts[0] == KPath && |ts| >= 6 && ts[1] == KPrepend && ts[2] == LParen && ts[3].Num?
        && ts[4] == RParen && ts[5] == Semi then
      Some(Parsed(Prepend(ts[3].n), ts[6..]))
    else None
  }

  function ParseBody(ts: seq<Token>): (r: Option<Parsed<seq<Simple>>>)
    ensures r.Some? ==> |r.value.rest| < |ts|
    decreases |ts|
  {
    if Starts(ts, RBrace) then Some(Parsed([], ts[1..])) else
    match ParseSimple(ts)
    case None => None
    case Some(s) =>
      match ParseBody(s.rest)
      case None => None
      case Some(p) => Some(Parsed([s.value] + p.value, p.rest))
  }

  function ParseStmt(ts: seq<Token>): (r: Option<Parsed<Stmt>>)
    ensures r.Some? ==> |r.value.rest| < |ts|
  {
    match Expect(ts, [KIf, LParen])
    case None =>
      (match ParseSimple(ts)
       case None => None
       case Some(p) => Some(Parsed(Do(p.value), p.rest)))
    case Some(condition) =>
      match ParseCond(condition)
      case None => None
      case Some(cond) =>
        match Expect(cond.rest, [RParen, KThen, LBrace])
        case None => None
        case Some(body) =>
          match ParseBody(body)
          case None => None
          case Some(p) => Some(Parsed(If(cond.value, p.value), p.rest))
  }

  function ParseStmts(ts: seq<Token>): (r: Option<Parsed<seq<Stmt>>>)
    ensures r.Some? ==> |r.value.rest| < |ts|
    decreases |ts|
  {
    if Starts(ts, RBrace) then Some(Parsed([], ts[1..])) else
    match ParseStmt(ts)
    case None => None
    case Some(s) =>
      match ParseStmts(s.rest)
      case None => None
      case Some(p) => Some(Parsed([s.value] + p.value, p.rest))
  }

  function ParseUse(direction: Token, ts: seq<Token>): (r: Option<Parsed<Option<string>>>)
    ensures r.Some? ==> |r.value.rest| <= |ts|
  {
    if !Starts(ts, direction) then Some(Parsed(None, ts))
    else if |ts| >= 4 && ts[1] == KFilter && ts[2].Name? && ts[3] == Semi then Some(Parsed(Some(ts[2].name), ts[4..]))
    else None
  }

  function ParseChannelBody(ts: seq<Token>): (r: Option<Parsed<Channel>>)
    ensures r.Some? ==> |r.value.rest| <= |ts|
  {
    match ParseUse(KImport, ts)
    case None => None
    case Some(i) =>
      match ParseUse(KExport, i.rest)
      case None => None
      case Some(e) =>
        match Expect(e.rest, [RBrace, Semi])
        case None => None
        case Some(rest) => Some(Parsed(Channel(i.value, e.value), rest))
  }

  function ParseChannel(family: Token, ts: seq<Token>): (r: Option<Parsed<Option<Channel>>>)
    ensures r.Some? ==> |r.value.rest| <= |ts|
  {
    if !Starts(ts, family) then Some(Parsed(None, ts))
    else if |ts| < 2 || ts[1] != LBrace then None else
    match ParseChannelBody(ts[2..])
    case None => None
    case Some(p) => Some(Parsed(Some(p.value), p.rest))
  }

  // The right-hand sides of definitions, up to and including the semicolon.

  function ParseSingleValue(name: string, ts: seq<Token>): (r: Option<Parsed<Decl>>)
    ensures r.Some? ==> |r.value.rest| < |ts|
  {
    match ParseComm(ts)
    case None => None
    case Some(c) => if Starts(c.rest, Semi) then Some(Parsed(DefineComms(name, [c.value]), c.rest[1..])) else None
  }

  function ParseAsnsValue(name: string, ts: seq<Token>): (r: Option<Parsed<Decl>>)
    ensures r.Some? ==> |r.value.rest| < |ts|
  {
    match ParseNums(ts)
    case None => None
    case Some(p) =>
      match Expect(p.rest, [RBracket, Semi])
      case None => None
      case Some(rest) => Some(Parsed(DefineAsns(name, p.value), rest))
  }

  function ParseCommsValue(name: string, ts: seq<Token>): (r: Option<Parsed<Decl>>)
    ensures r.Some? ==> |r.value.rest| < |ts|
  {
    match ParseComms(ts)
    case None => None
    case Some(p) =>
      match Expect(p.rest, [RBracket, Semi])
      case None => None
      case Some(rest) => Some(Parsed(DefineComms(name, p.value), rest))
  }

  function ParseNetsValue(name: string, ts: seq<Token>): (r: Option<Parsed<Decl>>)
    ensures r.Some? ==> |r.value.rest| < |ts|
  {
    match Expect(ts, [Nl, RBracket, Semi])
    case Some(rest) => Some(Parsed(DefineNets(name, []), rest))
    case None =>
      match ParseEntries(ts)
      case None => None
      case Some(p) =>
        match Expect(p.rest, [Nl, RBracket, Semi])
        case None => None
        case Some(rest) => Some(Parsed(DefineNets(name, p.value), rest))
  }

  function ParseValue(name: string, ts: seq<Token>): (r: Option<Parsed<Decl>>)
    ensures r.Some? ==> |r.value.rest| < |ts|
  {
    if |ts| < 2 then None
    else if ts[0] == LParen then ParseSingleValue(name, ts)
    else if ts[0] != LBracket then None
    else if ts[1].Num? then ParseAsnsValue(name, ts[1..])
    else if ts[1] == LParen then ParseCommsValue(name, ts[1..])
    else ParseNetsValue(name, ts[1..])
  }

  function ParseDecl(ts: seq<Token>): (r: Option<Parsed<Decl>>)
    ensures r.Some? ==> |r.value.rest| < |ts|
  {
    if |ts| < 4 then None
    else if ts[0] == KDefine && ts[1].Name? && ts[2] == Equals then ParseValue(ts[1].name, ts[3..])
    else if ts[0] == KFilter && ts[1].Name? && ts[2] == LBrace then
      match ParseStmts(ts[3..])
      case None => None
      case Some(p) => Some(Parsed(Filter(ts[1].name, p.value), p.rest))
    else if ts[0] == KProtocol && ts[1] == KBgp && ts[2].Name? && ts[3] == LBrace then
      match ParseChannel(KIpv4, ts[4..])
      case None => None
      case Some(v4) =>
        match ParseChannel(KIpv6, v4.rest)
        case None => None
        case Some(v6) =>
          if !Starts(v6.rest, RBrace) then None
          else Some(Parsed(BgpSession(ts[2].name, v4.value, v6.value), v6.rest[1..]))
    else None
  }

  function Parse(ts: seq<Token>): Option<seq<Decl>>
    decreases |ts|
  {
    if ts == [] then Some([]) else
    match ParseDecl(ts)
    case None => None
    case Some(d) =>
      match Parse(d.rest)
      case None => None
      case Some(ds) => Some([d.value] + ds)
  }

  // ---------- What prints in a way that can be read back ----------

  predicate ClosedBody(ss: seq<Simple>) {
    ss != [] ==> ClosedSimple(ss[0]) && ClosedBody(ss[1..])
  }

  predicate ClosedStmt(s: Stmt) {
    match s
    case If(_, body) => ClosedBody(body)
    case Do(simple) => ClosedSimple(simple)
  }

  predicate ClosedStmts(ss: seq<Stmt>) {
    ss != [] ==> ClosedStmt(ss[0]) && ClosedStmts(ss[1..])
  }

  /** No statement deletes a single literal community. */
  predicate Closed(ds: seq<Decl>) {
    ds != [] ==> (ds[0].Filter? ==> ClosedStmts(ds[0].stmts)) && Closed(ds[1..])
  }

  // ---------- Round trip ----------

  lemma {:induction false} NumsRoundTrip(ns: seq<nat>, rest: seq<Token>)
    requires |ns| > 0 && !Starts(rest, Comma)
    ensures ParseNums(PrintNums(ns) + rest) == Some(Parsed(ns, rest))
    decreases |ns|
  {
    var ts := PrintNums(ns) + rest;
    if |ns| == 1 {
      assert ts[1..] == rest;
      assert [ns[0]] == ns;
    } else {
      assert ts[2..] == PrintNums(ns[1..]) + rest;
      NumsRoundTrip(ns[1..], rest);
      assert [ns[0]] + ns[1..] == ns;
    }
  }

  lemma {:induction false} MaskRoundTrip(ns: seq<nat>, rest: seq<Token>)
    requires |rest| > 0 && !rest[0].Num?
    ensures ParseMask(PrintMask(ns) + rest) == Parsed(ns, rest)
    decreases |ns|
  {
    var ts := PrintMask(ns) + rest;
    if ns == [] {
      assert ts == rest;
    } else {
      assert ts[1..] == PrintMask(ns[1..]) + rest;
      MaskRoundTrip(ns[1..], rest);
      assert [ns[0]] + ns[1..] == ns;
    }
  }

  lemma CommRoundTrip(c: Community, rest: seq<Token>)
    requires |c| > 0
    ensures ParseComm(PrintComm(c) + rest) == Some(Parsed(c, rest))
  {
    var ts := PrintComm(c) + rest;
    assert ts[1..] == PrintNums(c) + ([RParen] + rest);
    NumsRoundTrip(c, [RParen] + rest);
    assert ([RParen] + rest)[1..] == rest;
  }

  lemma {:induction false} CommsRoundTrip(cs: seq<Community>, rest: seq<Token>)
    requires ValidCommunities(cs) && !Starts(rest, Comma)
    ensures ParseComms(PrintComms(cs) + rest) == Some(Parsed(cs, rest))
    decreases |cs|
  {
    hide ParseComm;
    var ts := PrintComms(cs) + rest;
    if |cs| == 1 {
      CommRoundTrip(cs[0], rest);
      assert [cs[0]] == cs;
    } else {
      var tail := PrintComms(cs[1..]) + rest;
      assert ts == PrintComm(cs[0]) + ([Comma] + tail);
      CommRoundTrip(cs[0], [Comma] + tail);
      assert ([Comma] + tail)[1..] == tail;
      CommsRoundTrip(cs[1..], rest);
      assert [cs[0]] + cs[1..] == cs;
    }
  }

  lemma RangeRoundTrip(r: Option<Range>, rest: seq<Token>)
    requires !Starts(rest, LBrace)
    ensures ParseRange(PrintRange(r) + rest) == Some(Parsed(r, rest))
  {
    if r.None? {
      assert PrintRange(r) + rest == rest;
    } else {
      assert (PrintRange(r) + rest)[5..] == rest;
    }
  }

  lemma EntryRoundTrip(e: Entry, rest: seq<Token>)
    requires !Starts(rest, LBrace)
    ensures ParseEntry(PrintEntry(e) + rest) == Some(Parsed(e, rest))
  {
    hide ParseRange, PrintRange;
    var after := PrintRange(e.range) + rest;
    var ts := [Nl, Net(e.pfx)] + after;
    assert PrintEntry(e) + rest == ts;
    assert ts[2..] == after;
    RangeRoundTrip(e.range, rest);
  }

  lemma {:induction false} EntriesRoundTrip(es: seq<Entry>, rest: seq<Token>)
    requires |es| > 0 && !Starts(rest, Comma) && !Starts(rest, LBrace)
    ensures ParseEntries(PrintEntries(es) + rest) == Some(Parsed(es, rest))
    decreases |es|
  {
    hide ParseEntry, PrintEntry;
    if |es| == 1 {
      EntryRoundTrip(es[0], rest);
      assert [es[0]] == es;
    } else {
      var tail := PrintEntries(es[1..]) + rest;
      var after := [Comma] + tail;
      assert PrintEntries(es) + rest == PrintEntry(es[0]) + after;
      EntryRoundTrip(es[0], after);
      assert after[1..] == tail;
      EntriesRoundTrip(es[1..], rest);
      assert [es[0]] + es[1..] == es;
    }
  }

  // Shapes of token sequences.

  lemma Behind<T>(front: seq<T>, rest: seq<T>)
    ensures (front + rest)[|front|..] == rest
  {
  }

  lemma Nest3<T>(a: seq<T>, c: seq<T>, d: seq<T>)
    ensures a + c + d == a + (c + d)
  {
  }

  lemma Nest4<T>(a: seq<T>, c: seq<T>, d: seq<T>, e: seq<T>)
    ensures a + c + d + e == a + (c + (d + e))
  {
    Nest3(a + c, d, e);
    Nest3(a, c, d + e);
  }

  lemma Nest5<T>(a: seq<T>, c: seq<T>, d: seq<T>, e: seq<T>, f: seq<T>)
    ensures a + c + d + e + f == a + (c + (d + (e + f)))
  {
    Nest4(a + c, d, e, f);
    Nest3(a, c, d + (e + f));
  }

  lemma PathOperandRoundTrip(o: PathOperand, rest: seq<Token>)
    ensures ParsePathOperand(PrintPathOperand(o) + rest) == Some(Parsed(o, rest))
  {
    hide ParseMask, PrintMask;
    if o.Mask? {
      var inside := PrintMask(o.asns) + ([RMask] + rest);
      Nest4([LMask], PrintMask(o.asns), [RMask], rest);
      Behind([LMask], inside);
      MaskRoundTrip(o.asns, [RMask] + rest);
      Behind([RMask], rest);
    } else {
      Behind([Name(o.name)], rest);
    }
  }

  lemma CommOperandRoundTrip(o: CommOperand, rest: seq<Token>)
    requires WellFormedOperand(o)
    ensures ParseCommOperand(PrintCommOperand(o) + rest) == Some(Parsed(o, rest))
  {
    hide ParseComms, PrintComms;
    if o.CommSet? {
      var inside := PrintComms(o.cs) + ([RBracket] + rest);
      Nest4([LBracket], PrintComms(o.cs), [RBracket], rest);
      Behind([LBracket], inside);
      CommsRoundTrip(o.cs, [RBracket] + rest);
      Behind([RBracket], rest);
    } else {
      Behind([Name(o.name)], rest);
    }
  }

  lemma ListTestRoundTrip(t: Test, attribute: Token, ts: seq<Token>, rest: seq<Token>)
    requires WellFormedTest(t)
    requires match t
             case PathTest(_, o) => attribute == KPath && ts == PrintPathOperand(o) + rest
             case CommTest(_, o) => attribute == KComm && ts == PrintCommOperand(o) + rest
             case ExtTest(_, o) => attribute == KExt && ts == PrintCommOperand(o) + rest
             case _ => false
    ensures ParseListTest(attribute, t.cmp, ts) == Some(Parsed(t, rest))
  {
    match t
    case PathTest(_, o) => PathOperandRoundTrip(o, rest);
    case CommTest(_, o) => CommOperandRoundTrip(o, rest);
    case ExtTest(_, o) => CommOperandRoundTrip(o, rest);
  }

  lemma ValueTestRoundTrip(t: Test, attribute: Token, value: seq<Token>, rest: seq<Token>)
    requires |rest| > 0 && rest[0] == RParen
    requires match t
             case NetTest(pfx, range) => attribute == KNet && value == [Net(pfx)] + PrintRange(range)
             case NetTypeTest(f) => attribute == KNetType && value == [if f == V4 then KIp4 else KIp6]
             case SourceTest(s) => attribute == KSource && value == [if s == FromBgp then KRtsBgp else KRtsStatic]
             case _ => false
    ensures ParseValueTest(attribute, value + rest) == Some(Parsed(t, rest))
  {
    hide ParseRange, PrintRange;
    if t.NetTest? {
      assert (value + rest)[1..] == PrintRange(t.range) + rest;
      RangeRoundTrip(t.range, rest);
    } else {
      assert (value + rest)[1..] == rest;
    }
  }

  lemma ListTestBodyRoundTrip(t: Test, attribute: Token, cmp: Cmp, operand: seq<Token>, rest: seq<Token>)
    requires WellFormedTest(t) && |operand| > 0
    requires match t
             case PathTest(c, o) => attribute == KPath && c == cmp && operand == PrintPathOperand(o)
             case CommTest(c, o) => attribute == KComm && c == cmp && operand == PrintCommOperand(o)
             case ExtTest(c, o) => attribute == KExt && c == cmp && operand == PrintCommOperand(o)
             case _ => false
    ensures ParseTestBody([attribute, PrintCmp(cmp)] + operand + rest) == Some(Parsed(t, rest))
  {
    hide ParseListTest, ParseValueTest, PrintPathOperand, PrintCommOperand;
    var ts := [attribute, PrintCmp(cmp)] + operand + rest;
    assert ts[2..] == operand + rest;
    ListTestRoundTrip(t, attribute, operand + rest, rest);
  }

  lemma OperandsNotEmpty(p: PathOperand, c: CommOperand)
    ensures |PrintPathOperand(p)| > 0 && |PrintCommOperand(c)| > 0
  {
  }

  lemma TestBodyRoundTrip(t: Test, rest: seq<Token>)
    requires WellFormedTest(t) && |rest| > 0 && rest[0] == RParen
    ensures ParseTestBody(PrintTestBody(t) + rest) == Some(Parsed(t, rest))
  {
    hide ParseListTest, ParseValueTest, PrintPathOperand, PrintCommOperand, PrintRange;
    if t.NetTest? || t.NetTypeTest? || t.SourceTest? {
      var ts := PrintTestBody(t) + rest;
      var value := PrintTestBody(t)[2..];
      assert ts[2..] == value + rest;
      ValueTestRoundTrip(t, ts[0], value, rest);
    } else {
      OperandsNotEmpty(if t.PathTest? then t.path else PathName(""), if t.PathTest? then CommName("") else t.comm);
      ListTestBodyRoundTrip(t, PrintTestBody(t)[0], t.cmp,
                            if t.PathTest? then PrintPathOperand(t.path) else PrintCommOperand(t.comm), rest);
    }
  }

  lemma TestRoundTrip(t: Test, rest: seq<Token>)
    requires WellFormedTest(t)
    ensures ParseTest(PrintTest(t) + rest) == Some(Parsed(t, rest))
  {
    hide ParseTestBody, PrintTestBody;
    var ts, close := PrintTest(t) + rest, [RParen] + rest;
    assert ts[1..] == PrintTestBody(t) + close;
    TestBodyRoundTrip(t, close);
    assert close[1..] == rest;
  }

  lemma {:induction false} CondParsesInto(c: Cond, rest: seq<Token>)
    requires WellFormedCond(c)
    ensures ParseCond(PrintCond(c) + rest) == ParseCondTail(c, rest)
    decreases c
  {
    hide ParseTest, PrintTest;
    match c
    case One(t) => TestRoundTrip(t, rest);
    case Both(l, t) =>
      var after := [AndAnd] + (PrintTest(t) + rest);
      assert PrintCond(c) + rest == PrintCond(l) + after;
      CondParsesInto(l, after);
      assert after[1..] == PrintTest(t) + rest;
      TestRoundTrip(t, rest);
    case Either(l, t) =>
      var after := [OrOr] + (PrintTest(t) + rest);
      assert PrintCond(c) + rest == PrintCond(l) + after;
      CondParsesInto(l, after);
      assert after[1..] == PrintTest(t) + rest;
      TestRoundTrip(t, rest);
  }

  lemma CommArgRoundTrip(arg: CommArg, rest: seq<Token>)
    requires arg.Literal? ==> ValidCommunities(arg.cs)
    ensures ParseCommArg(PrintArg(arg) + rest) == Some(Parsed(arg, rest))
  {
    if arg.ByName? {
      assert (PrintArg(arg) + rest)[1..] == rest;
    } else if |arg.cs| > 1 {
      ListArgRoundTrip(arg.cs, rest);
    } else {
      SingleArgRoundTrip(arg.cs, rest);
    }
  }

  lemma ListArgRoundTrip(cs: seq<Community>, rest: seq<Token>)
    requires ValidCommunities(cs) && |cs| > 1
    ensures ParseCommArg(PrintCommValue(cs) + rest) == Some(Parsed(Literal(cs), rest))
  {
    hide ParseComms, PrintComms, ParseComm;
    var ts, close := PrintCommValue(cs) + rest, [RBracket] + rest;
    assert ts[1..] == PrintComms(cs) + close;
    CommsRoundTrip(cs, close);
    assert close[1..] == rest;
  }

  lemma SingleArgRoundTrip(cs: seq<Community>, rest: seq<Token>)
    requires ValidCommunities(cs) && |cs| == 1
    ensures ParseCommArg(PrintCommValue(cs) + rest) == Some(Parsed(Literal(cs), rest))
  {
    hide ParseComm, ParseComms;
    assert PrintCommValue(cs) == PrintComm(cs[0]);
    CommRoundTrip(cs[0], rest);
    assert [cs[0]] == cs;
  }

  lemma CommEditShape(s: Simple, rest: seq<Token>)
    requires s.AddComm? || s.DeleteComm?
    ensures PrintSimple(s) + rest
         == [KComm, if s.AddComm? then KAdd else KDelete, LParen]
            + (PrintArg(s.arg) + if ClosedSimple(s) then [RParen, Semi] + rest else rest)
  {
    hide PrintArg;
  }

  lemma CommEditParses(op: Token, arg: CommArg, closed: bool, rest: seq<Token>)
    requires (op == KAdd || op == KDelete) && (arg.Literal? ==> ValidCommunities(arg.cs))
    requires |rest| > 0 && rest[0] != RParen
    ensures ParseCommEdit([op, LParen] + (PrintArg(arg) + if closed then [RParen, Semi] + rest else rest))
         == if closed then Some(Parsed(if op == KAdd then AddComm(arg) else DeleteComm(arg), rest)) else None
  {
    hide ParseCommArg, PrintArg;
    var after := if closed then [RParen, Semi] + rest else rest;
    var inside := PrintArg(arg) + after;
    assert ([op, LParen] + inside)[2..] == inside;
    CommArgRoundTrip(arg, after);
    if closed {
      ExpectFound([RParen, Semi], rest);
    } else {
      ExpectMissing(rest, [RParen, Semi]);
    }
  }

  lemma ExpectFound(expected: seq<Token>, rest: seq<Token>)
    ensures Expect(expected + rest, expected) == Some(rest)
  {
    assert (expected + rest)[..|expected|] == expected;
    assert (expected + rest)[|expected|..] == rest;
  }

  lemma ExpectMissing(ts: seq<Token>, expected: seq<Token>)
    requires |expected| > 0 && (|ts| == 0 || ts[0] != expected[0])
    ensures Expect(ts, expected) == None
  {
    if |ts| >= |expected| {
      assert ts[..|expected|][0] == ts[0];
    }
  }

  lemma ExpectMissingSecond(ts: seq<Token>, expected: seq<Token>)
    requires |expected| > 1 && |ts| > 1 && ts[1] != expected[1]
    ensures Expect(ts, expected) == None
  {
    if |ts| >= |expected| {
      assert ts[..|expected|][1] == ts[1];
    }
  }

  /** Reading one simple statement back succeeds exactly when it is closed. */
  lemma SimpleRoundTrip(s: Simple, rest: seq<Token>)
    requires WellFormedSimple(s) && |rest| > 0 && rest[0] != RParen
    ensures ParseSimple(PrintSimple(s) + rest) == if ClosedSimple(s) then Some(Parsed(s, rest)) else None
  {
    hide ParseCommEdit, ParseSimple, PrintArg, PrintSimple;
    if s.AddComm? || s.DeleteComm? {
      CommSimpleRoundTrip(s, rest);
    } else if s.Prepend? {
      PrependRoundTrip(s.asn, rest);
    } else if s.SetPref? || s.SetMed? {
      SetRoundTrip(s, rest);
    } else {
      VerdictRoundTrip(s, rest);
    }
  }

  lemma CommSimpleRoundTrip(s: Simple, rest: seq<Token>)
    requires WellFormedSimple(s) && (s.AddComm? || s.DeleteComm?) && |rest| > 0 && rest[0] != RParen
    ensures ParseSimple(PrintSimple(s) + rest) == if ClosedSimple(s) then Some(Parsed(s, rest)) else None
  {
    hide ParseCommEdit, PrintArg, PrintSimple;
    var op := if s.AddComm? then KAdd else KDelete;
    var inside := PrintArg(s.arg) + if ClosedSimple(s) then [RParen, Semi] + rest else rest;
    CommEditShape(s, rest);
    assert [KComm, op, LParen] == [KComm] + [op, LParen];
    Nest3([KComm], [op, LParen], inside);
    Behind([KComm], [op, LParen] + inside);
    CommEditParses(op, s.arg, ClosedSimple(s), rest);
  }

  lemma PrependRoundTrip(asn: nat, rest: seq<Token>)
    ensures ParseSimple(PrintSimple(Prepend(asn)) + rest) == Some(Parsed(Prepend(asn), rest))
  {
    hide ParseCommEdit;
    Behind([KPath, KPrepend, LParen, Num(asn), RParen, Semi], rest);
  }

  lemma SetRoundTrip(s: Simple, rest: seq<Token>)
    requires s.SetPref? || s.SetMed?
    ensures ParseSimple(PrintSimple(s) + rest) == Some(Parsed(s, rest))
  {
    hide ParseCommEdit;
    Behind([if s.SetPref? then KPref else KMed, Equals, Num(s.n), Semi], rest);
  }

  lemma VerdictRoundTrip(s: Simple, rest: seq<Token>)
    requires s == Accept || s == Reject
    ensures ParseSimple(PrintSimple(s) + rest) == Some(Parsed(s, rest))
  {
    hide ParseCommEdit;
    Behind([if s == Accept then KAccept else KReject, Semi], rest);
  }

  lemma PrintedSimpleStarts(s: Simple)
    ensures |PrintSimple(s)| >= 2 && PrintSimple(s)[0] in {KPath, KComm, KPref, KMed, KAccept, KReject}
  {
  }

  lemma BodyStart(ss: seq<Simple>, rest: seq<Token>)
    ensures var ts := PrintBody(ss) + [RBrace] + rest;
            |ts| > 0 && ts[0] != RParen && (ss != [] ==> ts[0] != RBrace)
  {
    if ss != [] {
      PrintedSimpleStarts(ss[0]);
      assert PrintBody(ss)[0] == PrintSimple(ss[0])[0];
    }
  }

  lemma {:induction false} BodyRoundTrip(ss: seq<Simple>, rest: seq<Token>)
    requires forall i :: 0 <= i < |ss| ==> WellFormedSimple(ss[i])
    ensures ParseBody(PrintBody(ss) + [RBrace] + rest) == if ClosedBody(ss) then Some(Parsed(ss, rest)) else None
    decreases |ss|
  {
    hide ParseSimple, PrintSimple, WellFormedSimple, ClosedSimple;
    var ts := PrintBody(ss) + [RBrace] + rest;
    BodyStart(ss, rest);
    if ss == [] {
      assert ts[1..] == rest;
    } else {
      var after := PrintBody(ss[1..]) + [RBrace] + rest;
      assert ts == PrintSimple(ss[0]) + after;
      BodyStart(ss[1..], rest);
      SimpleRoundTrip(ss[0], after);
      BodyRoundTrip(ss[1..], rest);
      assert [ss[0]] + ss[1..] == ss;
    }
  }

  lemma IfRoundTrip(cond: Cond, body: seq<Simple>, rest: seq<Token>)
    requires WellFormedStmt(If(cond, body))
    ensures ParseStmt(PrintStmt(If(cond, body)) + rest) ==
            if ClosedBody(body) then Some(Parsed(If(cond, body), rest)) else None
  {
    hide ParseSimple, PrintSimple, ParseCond, ParseBody, PrintBody, PrintCond;
    var inside := PrintBody(body) + [RBrace] + rest;
    var after := [RParen, KThen, LBrace] + inside;
    var condition := PrintCond(cond) + after;
    Nest3(PrintBody(body), [RBrace], rest);
    Nest5([KIf, LParen] + PrintCond(cond), [RParen, KThen, LBrace], PrintBody(body), [RBrace], rest);
    Nest3([KIf, LParen], PrintCond(cond), after);
    ExpectFound([KIf, LParen], condition);
    CondParsesInto(cond, after);
    ExpectFound([RParen, KThen, LBrace], inside);
    BodyRoundTrip(body, rest);
  }

  lemma DoRoundTrip(s: Simple, rest: seq<Token>)
    requires WellFormedSimple(s) && |rest| > 0 && rest[0] != RParen
    ensures ParseStmt(PrintSimple(s) + rest) == if ClosedSimple(s) then Some(Parsed(Do(s), rest)) else None
  {
    hide ParseSimple, PrintSimple, ParseCond, ParseBody;
    PrintedSimpleStarts(s);
    ExpectMissing(PrintSimple(s) + rest, [KIf, LParen]);
    SimpleRoundTrip(s, rest);
  }

  lemma StmtRoundTrip(s: Stmt, rest: seq<Token>)
    requires WellFormedStmt(s) && |rest| > 0 && rest[0] != RParen
    ensures ParseStmt(PrintStmt(s) + rest) == if ClosedStmt(s) then Some(Parsed(s, rest)) else None
  {
    hide ParseStmt;
    match s
    case If(cond, body) => IfRoundTrip(cond, body, rest);
    case Do(simple) => DoRoundTrip(simple, rest);
  }

  lemma PrintedStmtStarts(s: Stmt)
    ensures |PrintStmt(s)| > 0 && PrintStmt(s)[0] !in {RBrace, RParen}
  {
    if s.Do? {
      PrintedSimpleStarts(s.s);
    }
  }

  lemma StmtsStart(ss: seq<Stmt>, rest: seq<Token>)
    ensures var ts := PrintStmts(ss) + [RBrace] + rest;
            |ts| > 0 && ts[0] != RParen && (ss != [] ==> ts[0] != RBrace)
  {
    if ss != [] {
      PrintedStmtStarts(ss[0]);
      assert PrintStmts(ss)[0] == PrintStmt(ss[0])[0];
    }
  }

  lemma {:induction false} StmtsRoundTrip(ss: seq<Stmt>, rest: seq<Token>)
    requires forall i :: 0 <= i < |ss| ==> WellFormedStmt(ss[i])
    ensures ParseStmts(PrintStmts(ss) + [RBrace] + rest) == if ClosedStmts(ss) then Some(Parsed(ss, rest)) else None
    decreases |ss|
  {
    hide ParseStmt, PrintStmt, WellFormedStmt, ClosedStmt;
    var ts := PrintStmts(ss) + [RBrace] + rest;
    StmtsStart(ss, rest);
    if ss == [] {
      assert ts[1..] == rest;
    } else {
      var after := PrintStmts(ss[1..]) + [RBrace] + rest;
      assert ts == PrintStmt(ss[0]) + after;
      StmtsStart(ss[1..], rest);
      StmtRoundTrip(ss[0], after);
      StmtsRoundTrip(ss[1..], rest);
      assert [ss[0]] + ss[1..] == ss;
    }
  }

  lemma UseRoundTrip(direction: Token, policy: Option<string>, rest: seq<Token>)
    requires !Starts(rest, direction)
    ensures ParseUse(direction, PrintUse(direction, policy) + rest) == Some(Parsed(policy, rest))
  {
    if policy.None? {
      assert PrintUse(direction, policy) + rest == rest;
    } else {
      assert (PrintUse(direction, policy) + rest)[4..] == rest;
    }
  }

  lemma ChannelBodyRoundTrip(c: Channel, rest: seq<Token>)
    ensures ParseChannelBody(PrintUse(KImport, c.policyIn) + (PrintUse(KExport, c.policyOut) + ([RBrace, Semi] + rest)))
         == Some(Parsed(c, rest))
  {
    hide ParseUse;
    var close := [RBrace, Semi] + rest;
    var outward := PrintUse(KExport, c.policyOut) + close;
    assert outward[0] == (if c.policyOut.Some? then KExport else RBrace);
    UseRoundTrip(KImport, c.policyIn, outward);
    UseRoundTrip(KExport, c.policyOut, close);
    ExpectFound([RBrace, Semi], rest);
  }

  lemma ChannelRoundTrip(family: Token, c: Option<Channel>, rest: seq<Token>)
    requires !Starts(rest, family)
    ensures ParseChannel(family, PrintChannel(family, c) + rest) == Some(Parsed(c, rest))
  {
    hide ParseChannelBody, PrintUse;
    if c.None? {
      assert [] + rest == rest;
    } else {
      var imports, exports := PrintUse(KImport, c.value.policyIn), PrintUse(KExport, c.value.policyOut);
      Nest5([family, LBrace], imports, exports, [RBrace, Semi], rest);
      Behind([family, LBrace], imports + (exports + ([RBrace, Semi] + rest)));
      ChannelBodyRoundTrip(c.value, rest);
    }
  }

  lemma ChannelStart(family: Token, c: Option<Channel>, rest: seq<Token>)
    requires |rest| > 0
    ensures var ts := PrintChannel(family, c) + rest; |ts| > 0 && ts[0] == if c.Some? then family else rest[0]
  {
  }

  lemma AsnsRoundTrip(n: string, asns: seq<nat>, rest: seq<Token>)
    requires |asns| > 0
    ensures ParseAsnsValue(n, PrintNums(asns) + ([RBracket, Semi] + rest)) == Some(Parsed(DefineAsns(n, asns), rest))
  {
    NumsRoundTrip(asns, [RBracket, Semi] + rest);
    ExpectFound([RBracket, Semi], rest);
  }

  lemma CommListRoundTrip(n: string, cs: seq<Community>, rest: seq<Token>)
    requires ValidCommunities(cs)
    ensures ParseCommsValue(n, PrintComms(cs) + ([RBracket, Semi] + rest)) == Some(Parsed(DefineComms(n, cs), rest))
  {
    hide ParseComms;
    CommsRoundTrip(cs, [RBracket, Semi] + rest);
    ExpectFound([RBracket, Semi], rest);
  }

  lemma SingleRoundTrip(n: string, c: Community, rest: seq<Token>)
    requires |c| > 0
    ensures ParseSingleValue(n, PrintComm(c) + ([Semi] + rest)) == Some(Parsed(DefineComms(n, [c]), rest))
  {
    hide ParseComm;
    CommRoundTrip(c, [Semi] + rest);
    assert ([Semi] + rest)[1..] == rest;
  }

  lemma NetsRoundTrip(n: string, es: seq<Entry>, rest: seq<Token>)
    ensures ParseNetsValue(n, PrintEntries(es) + ([Nl, RBracket, Semi] + rest)) == Some(Parsed(DefineNets(n, es), rest))
  {
    hide ParseEntries, PrintEntries, Expect;
    var close := [Nl, RBracket, Semi] + rest;
    ExpectFound([Nl, RBracket, Semi], rest);
    if es == [] {
      NoEntries(close);
    } else {
      EntriesStart(es, close);
      ExpectMissingSecond(PrintEntries(es) + close, [Nl, RBracket, Semi]);
      EntriesRoundTrip(es, close);
    }
  }

  lemma NoEntries(rest: seq<Token>)
    ensures PrintEntries([]) + rest == rest
  {
  }

  lemma EntriesStart(es: seq<Entry>, rest: seq<Token>)
    requires |es| > 0
    ensures var ts := PrintEntries(es) + rest;
            |ts| >= 2 && ts[0] == Nl && ts[1] == Net(es[0].pfx)
  {
  }

  lemma ValueRoundTrip(d: Decl, rest: seq<Token>)
    requires WellFormedDecl(d) && (d.DefineAsns? || d.DefineComms? || d.DefineNets?)
    ensures ParseValue(d.name, PrintValue(d) + rest) == Some(Parsed(d, rest))
  {
    hide ParseValue, PrintValue;
    match d
    case DefineAsns(n, asns) => AsnsValue(n, asns, rest);
    case DefineComms(n, cs) => if |cs| > 1 { CommsValue(n, cs, rest); } else { SingleValue(n, cs, rest); }
    case DefineNets(n, es) => NetsValue(n, es, rest);
  }

  /** After the opening bracket the next token selects the parser. */
  lemma AfterBracket(n: string, inside: seq<Token>)
    requires |inside| > 0
    ensures ParseValue(n, [LBracket] + inside) ==
            if inside[0].Num? then ParseAsnsValue(n, inside)
            else if inside[0] == LParen then ParseCommsValue(n, inside)
            else ParseNetsValue(n, inside)
  {
    hide ParseAsnsValue, ParseCommsValue, ParseNetsValue, ParseSingleValue;
    assert ([LBracket] + inside)[1..] == inside;
  }

  lemma AsnsValue(n: string, asns: seq<nat>, rest: seq<Token>)
    requires |asns| > 0
    ensures ParseValue(n, PrintValue(DefineAsns(n, asns)) + rest) == Some(Parsed(DefineAsns(n, asns), rest))
  {
    hide ParseValue, ParseAsnsValue;
    var inside := PrintNums(asns) + ([RBracket, Semi] + rest);
    assert PrintValue(DefineAsns(n, asns)) + rest == [LBracket] + inside;
    assert inside[0] == Num(asns[0]);
    AfterBracket(n, inside);
    AsnsRoundTrip(n, asns, rest);
  }

  lemma CommsValue(n: string, cs: seq<Community>, rest: seq<Token>)
    requires ValidCommunities(cs) && |cs| > 1
    ensures ParseValue(n, PrintValue(DefineComms(n, cs)) + rest) == Some(Parsed(DefineComms(n, cs), rest))
  {
    hide ParseValue, ParseCommsValue;
    var inside := PrintComms(cs) + ([RBracket, Semi] + rest);
    assert PrintValue(DefineComms(n, cs)) + rest == [LBracket] + inside;
    assert inside[0] == PrintComm(cs[0])[0] == LParen;
    AfterBracket(n, inside);
    CommListRoundTrip(n, cs, rest);
  }

  lemma NetsValue(n: string, es: seq<Entry>, rest: seq<Token>)
    ensures ParseValue(n, PrintValue(DefineNets(n, es)) + rest) == Some(Parsed(DefineNets(n, es), rest))
  {
    hide ParseValue, ParseNetsValue;
    var close := [Nl, RBracket, Semi] + rest;
    var inside := PrintEntries(es) + close;
    assert PrintValue(DefineNets(n, es)) + rest == [LBracket] + inside;
    if es != [] {
      EntriesStart(es, close);
    }
    assert inside[0] == Nl;
    AfterBracket(n, inside);
    NetsRoundTrip(n, es, rest);
  }

  lemma SingleValue(n: string, cs: seq<Community>, rest: seq<Token>)
    requires ValidCommunities(cs) && |cs| == 1
    ensures ParseValue(n, PrintValue(DefineComms(n, cs)) + rest) == Some(Parsed(DefineComms(n, cs), rest))
  {
    hide ParseSingleValue, ParseAsnsValue, ParseCommsValue, ParseNetsValue;
    assert PrintValue(DefineComms(n, cs)) == PrintComm(cs[0]) + [Semi];
    var ts := PrintComm(cs[0]) + ([Semi] + rest);
    assert PrintValue(DefineComms(n, cs)) + rest == ts;
    hide PrintValue;
    assert |ts| >= 2 && ts[0] == LParen;
    SingleRoundTrip(n, cs[0], rest);
    assert [cs[0]] == cs;
  }

  lemma ValueNotEmpty(d: Decl)
    requires WellFormedDecl(d) && (d.DefineAsns? || d.DefineComms? || d.DefineNets?)
    ensures |PrintValue(d)| > 0
  {
  }

  lemma DefineRoundTrip(d: Decl, rest: seq<Token>)
    requires WellFormedDecl(d) && (d.DefineAsns? || d.DefineComms? || d.DefineNets?)
    ensures ParseDecl(PrintDecl(d) + rest) == Some(Parsed(d, rest))
  {
    hide ParseValue, PrintValue, ParseStmts, ParseChannel;
    ValueNotEmpty(d);
    var value := PrintValue(d) + rest;
    var ts := [KDefine, Name(d.name), Equals] + value;
    assert PrintDecl(d) + rest == ts;
    assert ts[3..] == value;
    ValueRoundTrip(d, rest);
  }

  lemma FilterRoundTrip(d: Decl, rest: seq<Token>)
    requires WellFormedDecl(d) && d.Filter?
    ensures ParseDecl(PrintDecl(d) + rest) == if ClosedStmts(d.stmts) then Some(Parsed(d, rest)) else None
  {
    hide ParseStmts, PrintStmts;
    var ts := PrintDecl(d) + rest;
    assert ts[3..] == PrintStmts(d.stmts) + [RBrace] + rest;
    StmtsRoundTrip(d.stmts, rest);
  }

  lemma SessionParses(name: string, inside: seq<Token>)
    ensures ParseDecl([KProtocol, KBgp, Name(name), LBrace] + inside) ==
            match ParseChannel(KIpv4, inside)
            case None => None
            case Some(v4) =>
              match ParseChannel(KIpv6, v4.rest)
              case None => None
              case Some(v6) =>
                if !Starts(v6.rest, RBrace) then None
                else Some(Parsed(BgpSession(name, v4.value, v6.value), v6.rest[1..]))
  {
    hide ParseChannel, ParseValue, ParseStmts;
    Behind([KProtocol, KBgp, Name(name), LBrace], inside);
  }

  lemma SessionRoundTrip(d: Decl, rest: seq<Token>)
    requires d.BgpSession?
    ensures ParseDecl(PrintDecl(d) + rest) == Some(Parsed(d, rest))
  {
    hide ParseDecl, ParseChannel, PrintChannel;
    var close := [RBrace] + rest;
    var tail := PrintChannel(KIpv6, d.ipv6) + close;
    var head := [KProtocol, KBgp, Name(d.name), LBrace];
    Nest5(head, PrintChannel(KIpv4, d.ipv4), PrintChannel(KIpv6, d.ipv6), [RBrace], rest);
    SessionParses(d.name, PrintChannel(KIpv4, d.ipv4) + tail);
    ChannelStart(KIpv6, d.ipv6, close);
    ChannelRoundTrip(KIpv4, d.ipv4, tail);
    ChannelRoundTrip(KIpv6, d.ipv6, close);
    Behind([RBrace], rest);
  }

  lemma DeclRoundTrip(d: Decl, rest: seq<Token>)
    requires WellFormedDecl(d)
    ensures ParseDecl(PrintDecl(d) + rest) == if d.Filter? && !ClosedStmts(d.stmts) then None else Some(Parsed(d, rest))
  {
    hide ParseDecl, PrintDecl;
    match d
    case Filter(_, _) => FilterRoundTrip(d, rest);
    case BgpSession(_, _, _) => SessionRoundTrip(d, rest);
    case _ => DefineRoundTrip(d, rest);
  }

  /** Both directions: the printed program is read back exactly, or refused because of an unclosed delete. */
  lemma {:induction false} RoundTrip(ds: seq<Decl>)
    requires WellFormed(ds)
    ensures Parse(Print(ds)) == if Closed(ds) then Some(ds) else None
    decreases |ds|
  {
    hide ParseDecl, PrintDecl;
    if ds != [] {
      PrintedDeclNotEmpty(ds[0]);
      DeclRoundTrip(ds[0], Print(ds[1..]));
      RoundTrip(ds[1..]);
      assert [ds[0]] + ds[1..] == ds;
    }
  }

  lemma PrintedDeclNotEmpty(d: Decl)
    ensures |PrintDecl(d)| > 0
  {
  }
}

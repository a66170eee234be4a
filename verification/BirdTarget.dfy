/** BIRD configuration: tokens, abstract syntax, and the text the converter prints for it. */
module BirdTarget {
  import opened Options
  import opened BirdSource

  /**
   Tokens of the output.  Line breaks are kept only inside prefix lists, where one of them
   overwrites a separator; blanks, comments and all other line breaks are insignificant.
   */
  datatype Token =
    | KDefine | KFilter | KIf | KThen | KAccept | KReject
    | KPath | KComm | KExt | KNet | KNetType | KSource | KPref | KMed
    | KAdd | KDelete | KPrepend
    | KIp4 | KIp6 | KRtsBgp | KRtsStatic
    | KProtocol | KBgp | KIpv4 | KIpv6 | KImport | KExport
    | LBracket | RBracket | LParen | RParen | LBrace | RBrace | LMask | RMask
    | Comma | Semi | Equals | Tilde | AndAnd | OrOr
    | Nl
    | Name(name: string)
    | Num(n: nat)
    | Net(pfx: Prefix)

  datatype Cmp = Eq | In

  datatype PathOperand = Mask(asns: seq<nat>) | PathName(name: string)

  datatype CommOperand = CommSet(cs: seq<Community>) | CommName(name: string)

  datatype Range = Range(lo: nat, hi: nat)

  datatype Test =
    | PathTest(cmp: Cmp, path: PathOperand)
    | CommTest(cmp: Cmp, comm: CommOperand)
    | ExtTest(cmp: Cmp, comm: CommOperand)
    | NetTest(pfx: Prefix, range: Option<Range>)
    | NetTypeTest(family: Family)
    | SourceTest(source: Protocol)

  /** Conditions joined from the left. */
  datatype Cond = One(t: Test) | Both(l: Cond, t: Test) | Either(l: Cond, t: Test)

  datatype CommArg = Literal(cs: seq<Community>) | ByName(name: string)

  datatype Simple =
    | Prepend(asn: nat)
    | AddComm(arg: CommArg)
    | DeleteComm(arg: CommArg)
    | SetPref(n: nat)
    | SetMed(n: nat)
    | Accept
    | Reject

  datatype Stmt = If(cond: Cond, body: seq<Simple>) | Do(s: Simple)

  datatype Entry = Entry(pfx: Prefix, range: Option<Range>)

  datatype Decl =
    | DefineAsns(name: string, asns: seq<nat>)
    | DefineComms(name: string, cs: seq<Community>)
    | DefineNets(name: string, entries: seq<Entry>)
    | Filter(name: string, stmts: seq<Stmt>)
    | BgpSession(name: string, ipv4: Option<Channel>, ipv6: Option<Channel>)

  // ---------- Printing ----------

  function PrintNums(ns: seq<nat>): seq<Token> {
    if ns == [] then []
    else if |ns| == 1 then [Num(ns[0])]
    else [Num(ns[0]), Comma] + PrintNums(ns[1..])
  }

  function PrintMask(ns: seq<nat>): seq<Token> {
    if ns == [] then [] else [Num(ns[0])] + PrintMask(ns[1..])
  }

  function PrintComm(c: Community): seq<Token> {
    [LParen] + PrintNums(c) + [RParen]
  }

  function PrintComms(cs: seq<Community>): seq<Token> {
    if cs == [] then []
    else if |cs| == 1 then PrintComm(cs[0])
    else PrintComm(cs[0]) + [Comma] + PrintComms(cs[1..])
  }

  /** Brackets only around two communities or more. */
  function PrintCommValue(cs: seq<Community>): seq<Token> {
    if |cs| > 1 then [LBracket] + PrintComms(cs) + [RBracket] else PrintComms(cs)
  }

  function PrintRange(r: Option<Range>): seq<Token> {
    match r
    case None => []
    case Some(b) => [LBrace, Num(b.lo), Comma, Num(b.hi), RBrace]
  }

  function PrintEntry(e: Entry): seq<Token> {
    [Nl, Net(e.pfx)] + PrintRange(e.range)
  }

  function PrintEntries(es: seq<Entry>): seq<Token> {
    if es == [] then []
    else if |es| == 1 then PrintEntry(es[0])
    else PrintEntry(es[0]) + [Comma] + PrintEntries(es[1..])
  }

  function PrintCmp(c: Cmp): Token {
    match c
    case Eq => Equals
    case In => Tilde
  }

  function PrintCommOperand(o: CommOperand): seq<Token> {
    match o
    case CommSet(cs) => [LBracket] + PrintComms(cs) + [RBracket]
    case CommName(n) => [Name(n)]
  }

  function PrintPathOperand(o: PathOperand): seq<Token> {
    match o
    case Mask(asns) => [LMask] + PrintMask(asns) + [RMask]
    case PathName(n) => [Name(n)]
  }

  function PrintTestBody(t: Test): seq<Token> {
    match t
    case PathTest(cmp, path) => [KPath, PrintCmp(cmp)] + PrintPathOperand(path)
    case CommTest(cmp, comm) => [KComm, PrintCmp(cmp)] + PrintCommOperand(comm)
    case ExtTest(cmp, comm) => [KExt, PrintCmp(cmp)] + PrintCommOperand(comm)
    case NetTest(pfx, range) => [KNet, Equals, Net(pfx)] + PrintRange(range)
    case NetTypeTest(f) => [KNetType, Equals, if f == V4 then KIp4 else KIp6]
    case SourceTest(s) => [KSource, Equals, if s == FromBgp then KRtsBgp else KRtsStatic]
  }

  function PrintTest(t: Test): seq<Token> {
    [LParen] + PrintTestBody(t) + [RParen]
  }

  function PrintCond(c: Cond): seq<Token> {
    match c
    case One(t) => PrintTest(t)
    case Both(l, t) => PrintCond(l) + [AndAnd] + PrintTest(t)
    case Either(l, t) => PrintCond(l) + [OrOr] + PrintTest(t)
  }

  /** A name, one community, or a bracketed list of several. */
  function PrintArg(arg: CommArg): seq<Token> {
    match arg
    case ByName(n) => [Name(n)]
    case Literal(cs) => PrintCommValue(cs)
  }

  predicate ClosedSimple(s: Simple) {
    s.DeleteComm? && s.arg.Literal? ==> |s.arg.cs| > 1
  }

  /** Deleting a single literal community is printed without the closing parenthesis and semicolon. */
  function PrintSimple(s: Simple): seq<Token> {
    match s
    case Prepend(asn) => [KPath, KPrepend, LParen, Num(asn), RParen, Semi]
    case AddComm(arg) => [KComm, KAdd, LParen] + PrintArg(arg) + [RParen, Semi]
    case DeleteComm(arg) => [KComm, KDelete, LParen] + PrintArg(arg) + if ClosedSimple(s) then [RParen, Semi] else []
    case SetPref(n) => [KPref, Equals, Num(n), Semi]
    case SetMed(n) => [KMed, Equals, Num(n), Semi]
    case Accept => [KAccept, Semi]
    case Reject => [KReject, Semi]
  }

  function PrintBody(ss: seq<Simple>): seq<Token> {
    if ss == [] then [] else PrintSimple(ss[0]) + PrintBody(ss[1..])
  }

  function PrintStmt(s: Stmt): seq<Token> {
    match s
    case If(cond, body) => [KIf, LParen] + PrintCond(cond) + [RParen, KThen, LBrace] + PrintBody(body) + [RBrace]
    case Do(simple) => PrintSimple(simple)
  }

  function PrintStmts(ss: seq<Stmt>): seq<Token> {
    if ss == [] then [] else PrintStmt(ss[0]) + PrintStmts(ss[1..])
  }

  function PrintUse(direction: Token, policy: Option<string>): seq<Token> {
    match policy
    case None => []
    case Some(n) => [direction, KFilter, Name(n), Semi]
  }

  function PrintChannel(family: Token, c: Option<Channel>): seq<Token> {
    match c
    case None => []
    case Some(ch) =>
      [family, LBrace] + PrintUse(KImport, ch.policyIn) + PrintUse(KExport, ch.policyOut) + [RBrace, Semi]
  }

  /** The right-hand side of a definition with its semicolon. */
  function PrintValue(d: Decl): seq<Token>
    requires d.DefineAsns? || d.DefineComms? || d.DefineNets?
  {
    match d
    case DefineAsns(_, asns) => [LBracket] + PrintNums(asns) + [RBracket, Semi]
    case DefineComms(_, cs) => PrintCommValue(cs) + [Semi]
    case DefineNets(_, entries) => [LBracket] + PrintEntries(entries) + [Nl, RBracket, Semi]
  }

  function PrintDecl(d: Decl): seq<Token> {
    match d
    case Filter(n, stmts) => [KFilter, Name(n), LBrace] + PrintStmts(stmts) + [RBrace]
    case BgpSession(n, v4, v6) =>
      [KProtocol, KBgp, Name(n), LBrace] + PrintChannel(KIpv4, v4) + PrintChannel(KIpv6, v6) + [RBrace]
    case _ => [KDefine, Name(d.name), Equals] + PrintValue(d)
  }

  function Print(ds: seq<Decl>): seq<Token> {
    if ds == [] then [] else PrintDecl(ds[0]) + Print(ds[1..])
  }

  // ---------- The syntax the converter can produce ----------

  predicate WellFormedOperand(o: CommOperand) {
    o.CommSet? ==> ValidCommunities(o.cs)
  }

  predicate WellFormedTest(t: Test) {
    match t
    case CommTest(_, o) => WellFormedOperand(o)
    case ExtTest(_, o) => WellFormedOperand(o)
    case _ => true
  }

  predicate WellFormedCond(c: Cond) {
    match c
    case One(t) => WellFormedTest(t)
    case Both(l, t) => WellFormedCond(l) && WellFormedTest(t)
    case Either(l, t) => WellFormedCond(l) && WellFormedTest(t)
  }

  predicate WellFormedSimple(s: Simple) {
    match s
    case AddComm(Literal(cs)) => |cs| == 1 && ValidCommunities(cs)
    case DeleteComm(Literal(cs)) => ValidCommunities(cs)
    case _ => true
  }

  predicate WellFormedStmt(s: Stmt) {
    match s
    case If(cond, body) => WellFormedCond(cond) && forall i :: 0 <= i < |body| ==> WellFormedSimple(body[i])
    case Do(simple) => WellFormedSimple(simple)
  }

  predicate WellFormedDecl(d: Decl) {
    match d
    case DefineAsns(_, asns) => |asns| > 0
    case DefineComms(_, cs) => ValidCommunities(cs)
    case Filter(_, stmts) => forall i :: 0 <= i < |stmts| ==> WellFormedStmt(stmts[i])
    case _ => true
  }

  predicate WellFormed(ds: seq<Decl>) {
    forall i :: 0 <= i < |ds| ==> WellFormedDecl(ds[i])
  }
}

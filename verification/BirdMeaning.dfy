/**
 The meaning of policies and of filters over the same routes, and how far the conversion
 preserves it.  What an atomic test or edit does to a route is a parameter, so the theorems
 hold for every such semantics; what they fix is which tests and edits run, on which
 operands, in which order, and what becomes of the route.
 */
module BirdMeaning {
  import opened Options
  import opened BirdSource
  import opened BirdTarget
  import opened BirdTranslate

  /** An inline AS path is a sequence, a predefined list is a set of AS numbers. */
  datatype PathMeaning = Sequence(asns: seq<nat>) | Members(asns: seq<nat>) | Pattern(pattern: string) | NoPath

  datatype CommKind = Standard | Extended | Large

  /** An atomic condition with every list name replaced by the list. */
  datatype Fact =
    | PathFact(wide: bool, cmp: Cmp, path: PathMeaning)
    | CommFact(kind: CommKind, cmp: Cmp, cs: Option<seq<Community>>)
    | NetFact(pfx: Prefix, lo: nat, hi: nat)
    | NetAnyFact(net: NetEq)
    | NetInFact(nets: NetIn)
    | NetTypeFact(family: Family)
    | SourceFact(source: Protocol)

  datatype Edit =
    | PrependEdit(asn: nat)
    | CommEdit(kind: CommKind, add: bool, cs: Option<seq<Community>>)
    | PrefEdit(n: nat)
    | MedEdit(n: nat)

  datatype Meaning<!R> = Meaning(holds: (Fact, R) -> bool, apply: (Edit, R) -> R)

  datatype Flow<R> = Next(r: R) | Verdict(accept: bool, r: R) | Called(rule: Option<string>, r: R)

  function ApplyEdits<R>(m: Meaning<R>, edits: seq<Edit>, r: R): R {
    if edits == [] then r else ApplyEdits(m, edits[1..], m.apply(edits[0], r))
  }

  // ---------- Policies ----------

  function SelectPath(b: Bgp, sel: PathSelect): PathMeaning {
    match sel
    case PathInline(asns) => Sequence(asns)
    case PathPattern(p) => Pattern(p)
    case PathList(n) =>
      match Find(b.asPathLists, n)
      case None => NoPath
      case Some(asns) => Members(asns)
  }

  function SelectComms(lists: seq<Named<seq<Community>>>, sel: CommSelect): Option<seq<Community>> {
    match sel
    case CommInline(cs) => Some(cs)
    case CommList(n) => Find(lists, n)
  }

  function ListsOf(b: Bgp, kind: CommKind): seq<Named<seq<Community>>> {
    match kind
    case Standard => b.communityLists
    case Extended => b.extCommunityLists
    case Large => b.largeCommunityLists
  }

  function PathFacts(b: Bgp, wide: bool, cmp: Cmp, sel: Option<PathSelect>): seq<Fact> {
    if sel.None? then [] else [PathFact(wide, cmp, SelectPath(b, sel.value))]
  }

  function CommFacts(b: Bgp, kind: CommKind, cmp: Cmp, sel: Option<CommSelect>): seq<Fact> {
    if sel.None? then [] else [CommFact(kind, cmp, SelectComms(ListsOf(b, kind), sel.value))]
  }

  /** The shortest and the longest sub-prefix an entry admits: without "ge" and "le" the prefix itself. */
  function Shortest(e: PrefixEntry): nat {
    if e.ge.Some? then e.ge.value else e.pfx.len
  }

  function Longest(e: PrefixEntry, max: nat): nat {
    if e.le.Some? then e.le.value else if e.ge.Some? then max else e.pfx.len
  }

  function NetFacts(net: Option<NetEq>): seq<Fact> {
    if net.None? then []
    else if |net.value.entries| == 1 then
      var e := net.value.entries[0];
      [NetFact(e.pfx, Shortest(e), Longest(e, MaxLength(net.value.family)))]
    else [NetAnyFact(net.value)]
  }

  function KnownFacts(b: Bgp, m: IfMatch, nets: seq<Fact>): seq<Fact> {
    PathFacts(b, false, Eq, m.asPathEq) + PathFacts(b, false, In, m.asPathIn)
    + CommFacts(b, Standard, Eq, m.communityEq) + CommFacts(b, Standard, In, m.communityIn)
    + CommFacts(b, Extended, Eq, m.extCommunityEq) + CommFacts(b, Extended, In, m.extCommunityIn)
    + nets
    + (if m.netTypeEq.Some? then [NetTypeFact(m.netTypeEq.value)] else [])
    + (if m.sourceEq.Some? then [SourceFact(m.sourceEq.value)] else [])
  }

  function WideFacts(b: Bgp, m: IfMatch): seq<Fact> {
    PathFacts(b, true, Eq, m.as4PathEq) + PathFacts(b, true, In, m.as4PathIn)
    + CommFacts(b, Large, Eq, m.largeCommunityEq) + CommFacts(b, Large, In, m.largeCommunityIn)
    + (if m.netIn.Some? then [NetInFact(m.netIn.value)] else [])
  }

  /** Every condition that is present. */
  function Facts(b: Bgp, m: IfMatch): seq<Fact> {
    KnownFacts(b, m, NetFacts(m.netEq)) + WideFacts(b, m)
  }

  /** ANY: some condition holds; ALL: every one does. */
  predicate Fires<R>(m: Meaning<R>, any: bool, facts: seq<Fact>, r: R) {
    if any then exists i :: 0 <= i < |facts| && m.holds(facts[i], r)
    else forall i :: 0 <= i < |facts| ==> m.holds(facts[i], r)
  }

  function CommEdits(b: Bgp, kind: CommKind, add: bool, sel: Option<CommSelect>): seq<Edit> {
    if sel.None? then [] else [CommEdit(kind, add, SelectComms(ListsOf(b, kind), sel.value))]
  }

  function AddEdits(b: Bgp, add: Option<CommAdd>): seq<Edit> {
    match add
    case None => []
    case Some(AddInline(c)) => [CommEdit(Standard, true, Some([c]))]
    case Some(AddList(n)) => [CommEdit(Standard, true, if n.Some? then Find(b.communityLists, n.value) else None)]
  }

  function PrependEdits(p: Option<PathPrepend>): seq<Edit> {
    match p
    case None => []
    case Some(PathPrepend(asn, times)) => seq(if times.Some? then times.value else 1, _ => PrependEdit(asn))
  }

  function SetEdits(a: Then): seq<Edit> {
    (if a.localPreference.Some? then [PrefEdit(a.localPreference.value)] else [])
    + (if a.med.Some? then [MedEdit(a.med.value)] else [])
  }

  function StandardEdits(b: Bgp, a: Then): seq<Edit> {
    PrependEdits(a.prepend) + AddEdits(b, a.communityAdd) + CommEdits(b, Standard, false, a.communityRemove)
        + SetEdits(a)
  }

  /** The edits of extended and large communities. */
  function OtherEdits(b: Bgp, a: Then): seq<Edit> {
    CommEdits(b, Extended, true, a.extCommunityAdd) + CommEdits(b, Extended, false, a.extCommunityRemove)
    + CommEdits(b, Large, true, a.largeCommunityAdd) + CommEdits(b, Large, false, a.largeCommunityRemove)
  }

  function Edits(b: Bgp, a: Then): seq<Edit> {
    StandardEdits(b, a) + OtherEdits(b, a)
  }

  function Conclude<R>(action: Action, r: R): Flow<R> {
    match action
    case Permit => Verdict(true, r)
    case Deny => Verdict(false, r)
    case CallNext => Next(r)
    case CallRule(rule) => Called(rule, r)
  }

  function RunTerm<R>(m: Meaning<R>, b: Bgp, t: Term, r: R): Flow<R> {
    if Fires(m, t.cond.matchAny, Facts(b, t.cond), r) then Conclude(t.act.action, ApplyEdits(m, Edits(b, t.act), r))
    else Next(r)
  }

  /** Terms in order, each seeing the edits of those before it; a route that passes all of them is rejected. */
  function RunTerms<R>(m: Meaning<R>, b: Bgp, terms: seq<Term>, r: R): Flow<R>
    decreases |terms|
  {
    if terms == [] then Verdict(false, r) else
    match RunTerm(m, b, terms[0], r)
    case Next(r') => RunTerms(m, b, terms[1..], r')
    case done => done
  }

  // ---------- Filters ----------

  function ResolvePath(defs: seq<Decl>, o: PathOperand): PathMeaning {
    match o
    case Mask(asns) => Sequence(asns)
    case PathName(n) =>
      match Lookup(defs, n)
      case Some(DefineAsns(_, asns)) => Members(asns)
      case _ => NoPath
  }

  function ResolveName(defs: seq<Decl>, n: string): Option<seq<Community>> {
    match Lookup(defs, n)
    case Some(DefineComms(_, cs)) => Some(cs)
    case _ => None
  }

  function ResolveComms(defs: seq<Decl>, o: CommOperand): Option<seq<Community>> {
    match o
    case CommSet(cs) => Some(cs)
    case CommName(n) => ResolveName(defs, n)
  }

  function ResolveTest(defs: seq<Decl>, t: Test): Fact {
    match t
    case PathTest(cmp, o) => PathFact(false, cmp, ResolvePath(defs, o))
    case CommTest(cmp, o) => CommFact(Standard, cmp, ResolveComms(defs, o))
    case ExtTest(cmp, o) => CommFact(Extended, cmp, ResolveComms(defs, o))
    case NetTest(pfx, None) => NetFact(pfx, pfx.len, pfx.len)
    case NetTest(pfx, Some(range)) => NetFact(pfx, range.lo, range.hi)
    case NetTypeTest(f) => NetTypeFact(f)
    case SourceTest(s) => SourceFact(s)
  }

  predicate EvalCond<R>(m: Meaning<R>, defs: seq<Decl>, c: Cond, r: R) {
    match c
    case One(t) => m.holds(ResolveTest(defs, t), r)
    case Both(l, t) => EvalCond(m, defs, l, r) && m.holds(ResolveTest(defs, t), r)
    case Either(l, t) => EvalCond(m, defs, l, r) || m.holds(ResolveTest(defs, t), r)
  }

  function ResolveArg(defs: seq<Decl>, arg: CommArg): Option<seq<Community>> {
    match arg
    case Literal(cs) => Some(cs)
    case ByName(n) => ResolveName(defs, n)
  }

  function ResolveEdit(defs: seq<Decl>, s: Simple): Edit
    requires s != Accept && s != Reject
  {
    match s
    case Prepend(asn) => PrependEdit(asn)
    case AddComm(arg) => CommEdit(Standard, true, ResolveArg(defs, arg))
    case DeleteComm(arg) => CommEdit(Standard, false, ResolveArg(defs, arg))
    case SetPref(n) => PrefEdit(n)
    case SetMed(n) => MedEdit(n)
  }

  /** Statements run in order until one of them decides. */
  function RunBody<R>(m: Meaning<R>, defs: seq<Decl>, ss: seq<Simple>, r: R): Flow<R>
    decreases |ss|
  {
    if ss == [] then Next(r)
    else if ss[0] == Accept then Verdict(true, r)
    else if ss[0] == Reject then Verdict(false, r)
    else RunBody(m, defs, ss[1..], m.apply(ResolveEdit(defs, ss[0]), r))
  }

  function RunStmt<R>(m: Meaning<R>, defs: seq<Decl>, s: Stmt, r: R): Flow<R> {
    match s
    case If(cond, body) => if EvalCond(m, defs, cond, r) then RunBody(m, defs, body, r) else Next(r)
    case Do(simple) => RunBody(m, defs, [simple], r)
  }

  function RunStmts<R>(m: Meaning<R>, defs: seq<Decl>, ss: seq<Stmt>, r: R): Flow<R>
    decreases |ss|
  {
    if ss == [] then Next(r) else
    match RunStmt(m, defs, ss[0], r)
    case Next(r') => RunStmts(m, defs, ss[1..], r')
    case done => done
  }

  /** A filter sees the definitions that stand before it in the output. */
  function RunFilter<R>(m: Meaning<R>, ds: seq<Decl>, i: nat, r: R): Flow<R>
    requires i < |ds| && ds[i].Filter?
  {
    RunStmts(m, ds[..i], ds[i].stmts, r)
  }

  // ---------- Names resolve to the lists they were meant for ----------

  ghost predicate DefsAgree(b: Bgp, defs: seq<Decl>) {
    && (forall n :: Find(b.asPathLists, n).Some? ==>
          Lookup(defs, n) == Some(DefineAsns(n, Find(b.asPathLists, n).value)))
    && (forall n :: Find(b.communityLists, n).Some? ==>
          Lookup(defs, n) == Some(DefineComms(n, Find(b.communityLists, n).value)))
    && (forall n :: Find(b.extCommunityLists, n).Some? ==>
          Lookup(defs, n) == Some(DefineComms(n, Find(b.extCommunityLists, n).value)))
  }

  lemma ListsFirst(b: Bgp) returns (filters: seq<Decl>, sessions: seq<Decl>)
    requires Translate(b).Some? && b.sessions.Some?
    ensures ListDecls(b).Some? && FilterDecls(b, b.policies) == Some(filters)
    ensures |ListDecls(b).value| == |ListNames(b)| && |filters| == |b.policies|
    ensures Translate(b).value == ListDecls(b).value + (filters + sessions)
  {
    hide ListDecls, ListNames, FilterDecls, SessionDecls, Distinct;
    ListDeclNames(b);
    filters, sessions := FilterDecls(b, b.policies).value, SessionDecls(b, b.sessions.value).value;
    var lists := ListDecls(b).value;
    assert lists + filters + sessions == lists + (filters + sessions);
  }

  lemma PrefixAgrees(b: Bgp, i: nat)
    requires Translate(b).Some? && b.sessions.Some?
    requires |ListNames(b)| <= i <= |Translate(b).value|
    ensures DefsAgree(b, Translate(b).value[..i])
  {
    hide Translate, ListDecls, DistinctlyDefined, ListNames, Find, Lookup, FilterDecls, SessionDecls;
    var filters, sessions := ListsFirst(b);
    var rest := filters + sessions;
    UniquePrefix(b, i);
    forall n | Find(b.asPathLists, n).Some?
      ensures Lookup(Translate(b).value[..i], n) == Some(DefineAsns(n, Find(b.asPathLists, n).value))
    {
      PathListResolves(b, rest, i, n);
    }
    forall n | Find(b.communityLists, n).Some?
      ensures Lookup(Translate(b).value[..i], n) == Some(DefineComms(n, Find(b.communityLists, n).value))
    {
      CommunityListResolves(b, rest, i, n);
    }
    forall n | Find(b.extCommunityLists, n).Some?
      ensures Lookup(Translate(b).value[..i], n) == Some(DefineComms(n, Find(b.extCommunityLists, n).value))
    {
      ExtCommunityListResolves(b, rest, i, n);
    }
  }

  lemma PathListResolves(b: Bgp, rest: seq<Decl>, i: nat, n: string)
    requires ListDecls(b).Some? && Find(b.asPathLists, n).Some?
    requires |ListDecls(b).value| <= i <= |ListDecls(b).value + rest|
    requires DistinctlyDefined((ListDecls(b).value + rest)[..i])
    ensures Lookup((ListDecls(b).value + rest)[..i], n) == Some(DefineAsns(n, Find(b.asPathLists, n).value))
  {
    var k := FindSome(b.asPathLists, n);
    AsnDeclAt(b, k);
    hide ListDecls, Find, DistinctlyDefined;
    FoundInPrefix(ListDecls(b).value, rest, i, k, n);
  }

  lemma CommunityListResolves(b: Bgp, rest: seq<Decl>, i: nat, n: string)
    requires ListDecls(b).Some? && Find(b.communityLists, n).Some?
    requires |ListDecls(b).value| <= i <= |ListDecls(b).value + rest|
    requires DistinctlyDefined((ListDecls(b).value + rest)[..i])
    ensures Lookup((ListDecls(b).value + rest)[..i], n) == Some(DefineComms(n, Find(b.communityLists, n).value))
  {
    var k := FindSome(b.communityLists, n);
    CommDeclAt(b, k);
    hide ListDecls, Find, DistinctlyDefined;
    FoundInPrefix(ListDecls(b).value, rest, i, |b.asPathLists| + k, n);
  }

  lemma ExtCommunityListResolves(b: Bgp, rest: seq<Decl>, i: nat, n: string)
    requires ListDecls(b).Some? && Find(b.extCommunityLists, n).Some?
    requires |ListDecls(b).value| <= i <= |ListDecls(b).value + rest|
    requires DistinctlyDefined((ListDecls(b).value + rest)[..i])
    ensures Lookup((ListDecls(b).value + rest)[..i], n) == Some(DefineComms(n, Find(b.extCommunityLists, n).value))
  {
    var k := FindSome(b.extCommunityLists, n);
    ExtCommDeclAt(b, k);
    hide ListDecls, Find, DistinctlyDefined;
    FoundInPrefix(ListDecls(b).value, rest, i, |b.asPathLists| + |b.communityLists| + k, n);
  }

  lemma FoundInPrefix(lists: seq<Decl>, rest: seq<Decl>, i: nat, k: nat, n: string)
    requires k < |lists| <= i <= |lists + rest| && Defined(lists[k]) == Some(n)
    requires DistinctlyDefined((lists + rest)[..i])
    ensures Lookup((lists + rest)[..i], n) == Some(lists[k])
  {
    assert (lists + rest)[..i][k] == lists[k];
    LookupFindsTheOne((lists + rest)[..i], k, n);
  }

  lemma UniquePrefix(b: Bgp, i: nat)
    requires Translate(b).Some? && b.sessions.Some? && i <= |Translate(b).value|
    ensures DistinctlyDefined(Translate(b).value[..i])
  {
    NamesResolve(b);
  }

  // ---------- Conditions ----------

  function FactAt(b: Bgp, m: IfMatch, k: nat): seq<Fact>
    requires k < CHECKS
  {
    if k == 0 then PathFacts(b, false, Eq, m.asPathEq)
    else if k == 1 then PathFacts(b, false, In, m.asPathIn)
    else if k == 2 then CommFacts(b, Standard, Eq, m.communityEq)
    else if k == 3 then CommFacts(b, Standard, In, m.communityIn)
    else if k == 4 then CommFacts(b, Extended, Eq, m.extCommunityEq)
    else if k == 5 then CommFacts(b, Extended, In, m.extCommunityIn)
    else if k == 6 then FirstNetFacts(m.netEq)
    else if k == 7 then []
    else if k == 8 then if m.netTypeEq.Some? then [NetTypeFact(m.netTypeEq.value)] else []
    else if m.sourceEq.Some? then [SourceFact(m.sourceEq.value)] else []
  }

  function FirstNetFacts(net: Option<NetEq>): seq<Fact> {
    if net.None? || net.value.entries == [] then [] else NetFacts(Some(net.value.(entries := [net.value.entries[0]])))
  }

  function FactsUpTo(b: Bgp, m: IfMatch, k: nat): seq<Fact>
    requires k <= CHECKS
  {
    if k == 0 then [] else FactsUpTo(b, m, k - 1) + FactAt(b, m, k - 1)
  }

  /** The conditions that reach the output. */
  function EmittedFacts(b: Bgp, m: IfMatch): seq<Fact> {
    FactsUpTo(b, m, CHECKS)
  }

  ghost predicate ResolvesTo(defs: seq<Decl>, ts: seq<Test>, facts: seq<Fact>) {
    |ts| == |facts| && forall i :: 0 <= i < |ts| ==> ResolveTest(defs, ts[i]) == facts[i]
  }

  /** An accepted entry's printed bounds are its shortest and longest admitted length. */
  lemma RangeIsShortestToLongest(e: PrefixEntry, max: nat)
    requires TranslateEntry(e, max).Some?
    ensures var range := TranslateEntry(e, max).value.range;
            && Shortest(e) == (if range.Some? then range.value.lo else e.pfx.len)
            && Longest(e, max) == (if range.Some? then range.value.hi else e.pfx.len)
  {
  }

  lemma CheckResolves(b: Bgp, defs: seq<Decl>, m: IfMatch, k: nat)
    requires DefsAgree(b, defs) && k < CHECKS && CheckAt(b, m, k).Some?
    ensures ResolvesTo(defs, CheckAt(b, m, k).value, FactAt(b, m, k))
  {
    if k == 6 && m.netEq.Some? && m.netEq.value.entries != [] {
      RangeIsShortestToLongest(m.netEq.value.entries[0], MaxLength(m.netEq.value.family));
    }
  }

  lemma {:induction false} ChecksResolve(b: Bgp, defs: seq<Decl>, m: IfMatch, k: nat)
    requires DefsAgree(b, defs) && k <= CHECKS && ChecksUpTo(b, m, k).Some?
    ensures ResolvesTo(defs, ChecksUpTo(b, m, k).value, FactsUpTo(b, m, k))
  {
    hide CheckAt, FactAt, DefsAgree, ResolvesTo;
    if k > 0 {
      ChecksResolve(b, defs, m, k - 1);
      CheckResolves(b, defs, m, k - 1);
      ResolvesInParts(defs, ChecksUpTo(b, m, k - 1).value, CheckAt(b, m, k - 1).value,
                      FactsUpTo(b, m, k - 1), FactAt(b, m, k - 1));
    } else {
      ResolvesNothing(defs);
    }
  }

  lemma ResolvesNothing(defs: seq<Decl>)
    ensures ResolvesTo(defs, [], [])
  {
  }

  lemma ResolvesInParts(defs: seq<Decl>, ts: seq<Test>, us: seq<Test>, fs: seq<Fact>, gs: seq<Fact>)
    requires ResolvesTo(defs, ts, fs) && ResolvesTo(defs, us, gs)
    ensures ResolvesTo(defs, ts + us, fs + gs)
  {
    hide ResolveTest;
  }

  lemma {:induction false} CondMeansFires<R>(m: Meaning<R>, defs: seq<Decl>, any: bool,
      ts: seq<Test>, facts: seq<Fact>, r: R)
    requires |ts| > 0 && ResolvesTo(defs, ts, facts)
    ensures EvalCond(m, defs, CondOf(any, ts), r) <==> Fires(m, any, facts, r)
    decreases |ts|
  {
    var n := |ts| - 1;
    if n > 0 {
      CondMeansFires(m, defs, any, ts[..n], facts[..n], r);
      assert m.holds(ResolveTest(defs, ts[n]), r) == m.holds(facts[n], r);
      if any {
        FiresSnoc(m, facts, r);
      }
    }
  }

  lemma FiresSnoc<R>(m: Meaning<R>, facts: seq<Fact>, r: R)
    requires |facts| > 0
    ensures var n := |facts| - 1;
            Fires(m, true, facts, r) <==> Fires(m, true, facts[..n], r) || m.holds(facts[n], r)
  {
    var n := |facts| - 1;
    if Fires(m, true, facts[..n], r) {
      var i :| 0 <= i < n && m.holds(facts[..n][i], r);
      assert m.holds(facts[i], r);
    }
    if Fires(m, true, facts, r) && !m.holds(facts[n], r) {
      var i :| 0 <= i < |facts| && m.holds(facts[i], r);
      assert m.holds(facts[..n][i], r);
    }
  }

  // ---------- Actions ----------

  ghost predicate EditsResolveTo(defs: seq<Decl>, ss: seq<Simple>, edits: seq<Edit>) {
    |ss| == |edits| && forall i :: 0 <= i < |ss| ==> MeansEdit(defs, ss[i], edits[i])
  }

  predicate MeansEdit(defs: seq<Decl>, s: Simple, edit: Edit) {
    s != Accept && s != Reject && ResolveEdit(defs, s) == edit
  }

  lemma EditsResolve(b: Bgp, defs: seq<Decl>, a: Then)
    requires DefsAgree(b, defs) && TranslateEdits(b, a).Some?
    ensures EditsResolveTo(defs, TranslateEdits(b, a).value, StandardEdits(b, a))
  {
    hide DefsAgree, EditsResolveTo, TranslatePrepend, TranslateAdd, TranslateRemove, TranslateSets,
      PrependEdits, AddEdits, CommEdits, SetEdits;
    PrependResolves(defs, a.prepend);
    AddResolves(b, defs, a.communityAdd);
    RemoveResolves(b, defs, a.communityRemove);
    SetsResolve(defs, a);
    var p, d := TranslatePrepend(a.prepend), TranslateAdd(b, a.communityAdd).value;
    var m, t := TranslateRemove(b, a.communityRemove).value, TranslateSets(a);
    var ps, ds := PrependEdits(a.prepend), AddEdits(b, a.communityAdd);
    var ms, ts := CommEdits(b, Standard, false, a.communityRemove), SetEdits(a);
    EditsInParts(defs, p, d, ps, ds);
    EditsInParts(defs, p + d, m, ps + ds, ms);
    EditsInParts(defs, p + d + m, t, ps + ds + ms, ts);
  }

  lemma EditsInParts(defs: seq<Decl>, ss: seq<Simple>, us: seq<Simple>, es: seq<Edit>, fs: seq<Edit>)
    requires EditsResolveTo(defs, ss, es) && EditsResolveTo(defs, us, fs)
    ensures EditsResolveTo(defs, ss + us, es + fs)
  {
    hide ResolveEdit;
  }

  lemma PrependResolves(defs: seq<Decl>, p: Option<PathPrepend>)
    ensures EditsResolveTo(defs, TranslatePrepend(p), PrependEdits(p))
  {
  }

  lemma AddResolves(b: Bgp, defs: seq<Decl>, add: Option<CommAdd>)
    requires DefsAgree(b, defs) && TranslateAdd(b, add).Some?
    ensures EditsResolveTo(defs, TranslateAdd(b, add).value, AddEdits(b, add))
  {
  }

  lemma RemoveResolves(b: Bgp, defs: seq<Decl>, remove: Option<CommSelect>)
    requires DefsAgree(b, defs) && TranslateRemove(b, remove).Some?
    ensures EditsResolveTo(defs, TranslateRemove(b, remove).value, CommEdits(b, Standard, false, remove))
  {
  }

  lemma SetsResolve(defs: seq<Decl>, a: Then)
    ensures EditsResolveTo(defs, TranslateSets(a), SetEdits(a))
  {
  }

  lemma {:induction false} BodyRuns<R>(m: Meaning<R>, defs: seq<Decl>, ss: seq<Simple>,
      edits: seq<Edit>, last: seq<Simple>, r: R)
    requires EditsResolveTo(defs, ss, edits)
    ensures RunBody(m, defs, ss + last, r) == RunBody(m, defs, last, ApplyEdits(m, edits, r))
    decreases |ss|
  {
    if ss == [] {
      assert ss + last == last;
    } else {
      assert (ss + last)[1..] == ss[1..] + last;
      BodyRuns(m, defs, ss[1..], edits[1..], last, m.apply(edits[0], r));
    }
  }

  lemma ThenRuns<R>(m: Meaning<R>, b: Bgp, defs: seq<Decl>, a: Then, r: R)
    requires DefsAgree(b, defs) && TranslateThen(b, a).Some?
    ensures RunBody(m, defs, TranslateThen(b, a).value, r) == Conclude(a.action, ApplyEdits(m, StandardEdits(b, a), r))
  {
    EditsResolve(b, defs, a);
    BodyRuns(m, defs, TranslateEdits(b, a).value, StandardEdits(b, a), TranslateVerdict(a.action).value, r);
  }

  // ---------- Terms ----------

  /** What the statements printed for a term do, said on the term. */
  function RunEmitted<R>(m: Meaning<R>, b: Bgp, t: Term, r: R): Flow<R> {
    if EmittedFacts(b, t.cond) != [] && Fires(m, t.cond.matchAny, EmittedFacts(b, t.cond), r) then
      Conclude(t.act.action, ApplyEdits(m, StandardEdits(b, t.act), r))
    else Next(r)
  }

  lemma TermRuns<R>(m: Meaning<R>, b: Bgp, defs: seq<Decl>, t: Term, r: R)
    requires DefsAgree(b, defs) && TranslateTerm(b, t).Some?
    ensures RunStmts(m, defs, TranslateTerm(b, t).value, r) == RunEmitted(m, b, t, r)
  {
    var ts := Checks(b, t.cond).value;
    ChecksResolve(b, defs, t.cond, CHECKS);
    if ts != [] {
      var body := TranslateThen(b, t.act).value;
      CondMeansFires(m, defs, t.cond.matchAny, ts, EmittedFacts(b, t.cond), r);
      ThenRuns(m, b, defs, t.act, r);
      var stmt := If(CondOf(t.cond.matchAny, ts), body);
      assert RunStmts(m, defs, [stmt], r) == RunStmt(m, defs, stmt, r);
    }
  }

  predicate NoConditions(m: IfMatch) {
    && m.asPathEq.None? && m.asPathIn.None? && m.as4PathEq.None? && m.as4PathIn.None?
    && m.communityEq.None? && m.communityIn.None? && m.extCommunityEq.None? && m.extCommunityIn.None?
    && m.largeCommunityEq.None? && m.largeCommunityIn.None?
    && m.netEq.None? && m.netIn.None? && m.netTypeEq.None? && m.sourceEq.None?
  }

  /** No condition of a kind that is never printed, and no "net-eq" with several prefixes or none. */
  predicate AllConditionsPrinted(m: IfMatch) {
    && m.as4PathEq.None? && m.as4PathIn.None? && m.largeCommunityEq.None? && m.largeCommunityIn.None? && m.netIn.None?
    && (m.netEq.Some? ==> |m.netEq.value.entries| == 1)
  }

  predicate AllEditsPrinted(a: Then) {
    && a.extCommunityAdd.None? && a.extCommunityRemove.None?
    && a.largeCommunityAdd.None? && a.largeCommunityRemove.None?
  }

  /** A term that changes nothing even when it applies. */
  predicate Inert(b: Bgp, t: Term) {
    t.act.action == CallNext && Edits(b, t.act) == []
  }

  /** The exact condition under which a term keeps its meaning. */
  predicate Kept(b: Bgp, t: Term) {
    || Inert(b, t)
    || (t.cond.matchAny && NoConditions(t.cond))
    || (!NoConditions(t.cond) && AllConditionsPrinted(t.cond) && AllEditsPrinted(t.act))
  }

  lemma EmittedAreFacts(b: Bgp, m: IfMatch)
    requires AllConditionsPrinted(m)
    ensures Facts(b, m) == EmittedFacts(b, m)
  {
    UnfoldEmitted(b, m);
    assert NetFacts(m.netEq) == FirstNetFacts(m.netEq) by {
      if m.netEq.Some? {
        assert [m.netEq.value.entries[0]] == m.netEq.value.entries;
        assert m.netEq.value.(entries := [m.netEq.value.entries[0]]) == m.netEq.value;
      }
    }
    assert WideFacts(b, m) == [];
    hide KnownFacts;
    assert Facts(b, m) == KnownFacts(b, m, NetFacts(m.netEq)) + [];
  }

  lemma UnfoldEmitted(b: Bgp, m: IfMatch)
    ensures EmittedFacts(b, m) == KnownFacts(b, m, FirstNetFacts(m.netEq))
  {
    hide PathFacts, CommFacts, FirstNetFacts;
    assert FactsUpTo(b, m, 1) == PathFacts(b, false, Eq, m.asPathEq);
    assert FactsUpTo(b, m, 2) == FactsUpTo(b, m, 1) + PathFacts(b, false, In, m.asPathIn);
    assert FactsUpTo(b, m, 3) == FactsUpTo(b, m, 2) + CommFacts(b, Standard, Eq, m.communityEq);
    assert FactsUpTo(b, m, 4) == FactsUpTo(b, m, 3) + CommFacts(b, Standard, In, m.communityIn);
    assert FactsUpTo(b, m, 5) == FactsUpTo(b, m, 4) + CommFacts(b, Extended, Eq, m.extCommunityEq);
    assert FactsUpTo(b, m, 6) == FactsUpTo(b, m, 5) + CommFacts(b, Extended, In, m.extCommunityIn);
    assert FactsUpTo(b, m, 8) == FactsUpTo(b, m, 6) + FirstNetFacts(m.netEq);
    assert FactsUpTo(b, m, 9) == FactsUpTo(b, m, 8) + FactAt(b, m, 8);
  }

  /** In every semantics, on every route. */
  lemma KeptTermsKeepTheirMeaning<R>(m: Meaning<R>, b: Bgp, defs: seq<Decl>, t: Term, r: R)
    requires DefsAgree(b, defs) && TranslateTerm(b, t).Some? && Kept(b, t)
    ensures RunStmts(m, defs, TranslateTerm(b, t).value, r) == RunTerm(m, b, t, r)
  {
    TermRuns(m, b, defs, t, r);
    if Inert(b, t) {
      assert StandardEdits(b, t.act) == [];
    } else if t.cond.matchAny && NoConditions(t.cond) {
      EmittedAreFacts(b, t.cond);
    } else {
      EmittedAreFacts(b, t.cond);
      assert Edits(b, t.act) == StandardEdits(b, t.act);
    }
  }

  /** The kinds of conditions the converter has a renderer for. */
  predicate Printable(x: Fact) {
    !x.NetAnyFact? && !x.NetInFact? && (x.PathFact? ==> !x.wide) && (x.CommFact? ==> x.kind != Large)
  }

  lemma EmittedArePrintable(b: Bgp, m: IfMatch, x: Fact)
    requires x in EmittedFacts(b, m)
    ensures Printable(x)
  {
    UnfoldEmitted(b, m);
    assert x in FirstNetFacts(m.netEq) ==> x.NetFact?;
  }

  /** A condition that is present but not printed. */
  lemma UnprintedFact(b: Bgp, m: IfMatch) returns (x: Fact)
    requires !AllConditionsPrinted(m)
    ensures x in Facts(b, m) && !Printable(x)
  {
    if m.netEq.Some? && |m.netEq.value.entries| != 1 {
      x := NetAnyFact(m.netEq.value);
      assert x in NetFacts(m.netEq);
      assert x in KnownFacts(b, m, NetFacts(m.netEq));
    } else {
      hide KnownFacts;
      assert |WideFacts(b, m)| > 0;
      x := WideFacts(b, m)[0];
      assert x in WideFacts(b, m) && !Printable(x);
    }
  }

  /** Routes as the log of their edits: the semantics that tells any two edit sequences apart. */
  type Log = seq<Edit>

  function Logging(holds: Fact -> bool): Meaning<Log> {
    Meaning((f: Fact, r: Log) => holds(f), (e: Edit, r: Log) => r + [e])
  }

  lemma {:induction false} LogsEdits(holds: Fact -> bool, edits: seq<Edit>, r: Log)
    ensures ApplyEdits(Logging(holds), edits, r) == r + edits
    decreases |edits|
  {
    if edits == [] {
      assert r + edits == r;
    } else {
      LogsEdits(holds, edits[1..], r + [edits[0]]);
      assert r + [edits[0]] + edits[1..] == r + edits;
    }
  }

  /** What a term and its printed statements make of the empty log. */
  lemma LoggedRuns(holds: Fact -> bool, b: Bgp, defs: seq<Decl>, t: Term)
    requires DefsAgree(b, defs) && TranslateTerm(b, t).Some?
    ensures var m := Logging(holds);
            && RunTerm(m, b, t, []) == (if Fires(m, t.cond.matchAny, Facts(b, t.cond), [])
                                        then Conclude(t.act.action, Edits(b, t.act)) else Next([]))
    ensures var m := Logging(holds);
            && RunStmts(m, defs, TranslateTerm(b, t).value, [])
               == (if EmittedFacts(b, t.cond) != [] && Fires(m, t.cond.matchAny, EmittedFacts(b, t.cond), [])
                   then Conclude(t.act.action, StandardEdits(b, t.act)) else Next([]))
  {
    TermRuns(Logging(holds), b, defs, t, []);
    hide Facts, EmittedFacts, Edits, StandardEdits, TranslateTerm, DefsAgree, Fires;
    LogsEdits(holds, Edits(b, t.act), []);
    LogsEdits(holds, StandardEdits(b, t.act), []);
    assert [] + Edits(b, t.act) == Edits(b, t.act);
    assert [] + StandardEdits(b, t.act) == StandardEdits(b, t.act);
  }

  /** One condition singled out: it alone holds, or it alone does not. */
  function Single(any: bool, x: Fact): Fact -> bool {
    (f: Fact) => (f == x) == any
  }

  lemma SingleDecides(any: bool, x: Fact, facts: seq<Fact>)
    ensures Fires(Logging(Single(any, x)), any, facts, []) == if x in facts then any else !any
  {
    if x in facts {
      var i :| 0 <= i < |facts| && facts[i] == x;
      assert Logging(Single(any, x)).holds(facts[i], []) == any;
    }
  }

  /** A term that is not kept has a semantics and a route on which the printed statements act differently. */
  lemma OtherTermsDoNot(b: Bgp, defs: seq<Decl>, t: Term) returns (m: Meaning<Log>)
    requires DefsAgree(b, defs) && TranslateTerm(b, t).Some? && !Kept(b, t)
    ensures RunStmts(m, defs, TranslateTerm(b, t).value, []) != RunTerm(m, b, t, [])
  {
    hide Facts, EmittedFacts, StandardEdits, OtherEdits, TranslateTerm, DefsAgree, Fires,
        Kept, AllConditionsPrinted, Printable;
    var silent := EmittedFacts(b, t.cond) == [] || (t.act.action == CallNext && StandardEdits(b, t.act) == []);
    if silent || AllConditionsPrinted(t.cond) {
      m := Logging(_ => true);
      AlwaysTrueDiffers(b, defs, t);
    } else {
      var x := UnprintedFact(b, t.cond);
      m := Logging(Single(t.cond.matchAny, x));
      LoggedRuns(Single(t.cond.matchAny, x), b, defs, t);
      SingleDecides(t.cond.matchAny, x, Facts(b, t.cond));
      SingleDecides(t.cond.matchAny, x, EmittedFacts(b, t.cond));
      if x in EmittedFacts(b, t.cond) {
        EmittedArePrintable(b, t.cond, x);
      }
    }
  }

  lemma AlwaysTrueDiffers(b: Bgp, defs: seq<Decl>, t: Term)
    requires DefsAgree(b, defs) && TranslateTerm(b, t).Some? && !Kept(b, t)
    requires EmittedFacts(b, t.cond) == [] || (t.act.action == CallNext && StandardEdits(b, t.act) == [])
             || AllConditionsPrinted(t.cond)
    ensures var m := Logging(_ => true);
            RunStmts(m, defs, TranslateTerm(b, t).value, []) != RunTerm(m, b, t, [])
  {
    hide Facts, EmittedFacts, StandardEdits, OtherEdits, TranslateTerm, DefsAgree,
      AllConditionsPrinted, AllEditsPrinted, NoConditions, Fires;
    LoggedRuns(_ => true, b, defs, t);
    AllTrueFires(b, t);
    NothingFires(t);
    UnprintedEdit(b, t.act);
    if AllConditionsPrinted(t.cond) {
      EmittedAreFacts(b, t.cond);
    }
    NoConditionsNoFacts(b, t.cond);
  }

  lemma NothingFires(t: Term)
    ensures Fires(Logging(_ => true), t.cond.matchAny, [], []) <==> !t.cond.matchAny
  {
  }

  lemma NoConditionsNoFacts(b: Bgp, m: IfMatch)
    ensures Facts(b, m) == [] <==> NoConditions(m)
    ensures NoConditions(m) ==> AllConditionsPrinted(m)
  {
    if Facts(b, m) == [] {
      assert KnownFacts(b, m, NetFacts(m.netEq)) == [] && WideFacts(b, m) == [];
    }
  }

  lemma AllTrueFires(b: Bgp, t: Term)
    requires !(t.cond.matchAny && NoConditions(t.cond))
    ensures Fires(Logging(_ => true), t.cond.matchAny, Facts(b, t.cond), [])
  {
    if t.cond.matchAny {
      assert |Facts(b, t.cond)| > 0;
      assert Logging(_ => true).holds(Facts(b, t.cond)[0], []);
    }
  }

  lemma UnprintedEdit(b: Bgp, a: Then)
    ensures AllEditsPrinted(a) <==> Edits(b, a) == StandardEdits(b, a)
  {
    assert AllEditsPrinted(a) <==> OtherEdits(b, a) == [];
  }

  // ---------- Policies ----------

  lemma {:induction false} StmtsInParts<R>(m: Meaning<R>, defs: seq<Decl>, a: seq<Stmt>, c: seq<Stmt>, r: R)
    ensures RunStmts(m, defs, a + c, r) ==
            match RunStmts(m, defs, a, r) case Next(r') => RunStmts(m, defs, c, r') case done => done
    decreases |a|
  {
    if a == [] {
      assert a + c == c;
    } else {
      assert (a + c)[1..] == a[1..] + c;
      match RunStmt(m, defs, a[0], r)
      case Next(r') => StmtsInParts(m, defs, a[1..], c, r');
      case _ =>
    }
  }

  ghost predicate AllKept(b: Bgp, terms: seq<Term>) {
    forall i :: 0 <= i < |terms| ==> Kept(b, terms[i])
  }

  lemma {:induction false} TermsKeepTheirMeaning<R>(m: Meaning<R>, b: Bgp, defs: seq<Decl>, terms: seq<Term>, r: R)
    requires DefsAgree(b, defs) && TranslateTerms(b, terms).Some? && AllKept(b, terms)
    ensures RunStmts(m, defs, TranslateTerms(b, terms).value + [Do(Reject)], r) == RunTerms(m, b, terms, r)
    decreases |terms|
  {
    if terms == [] {
      assert TranslateTerms(b, terms).value + [Do(Reject)] == [Do(Reject)];
    } else {
      var first, rest := TranslateTerm(b, terms[0]).value, TranslateTerms(b, terms[1..]).value;
      assert first + rest + [Do(Reject)] == first + (rest + [Do(Reject)]);
      StmtsInParts(m, defs, first, rest + [Do(Reject)], r);
      KeptTermsKeepTheirMeaning(m, b, defs, terms[0], r);
      match RunTerm(m, b, terms[0], r)
      case Next(r') => TermsKeepTheirMeaning(m, b, defs, terms[1..], r');
      case _ =>
    }
  }

  /** Where the filter of the k-th policy stands in the output. */
  function FilterIndex(b: Bgp, k: nat): nat {
    |ListNames(b)| + k
  }

  lemma FilterAt(b: Bgp, k: nat)
    requires Translate(b).Some? && b.sessions.Some? && k < |b.policies|
    ensures FilterIndex(b, k) < |Translate(b).value|
    ensures TranslatePolicy(b, b.policies[k]) == Some(Translate(b).value[FilterIndex(b, k)])
  {
    hide Translate, ListNames, ListDecls, TranslatePolicy, SessionDecls;
    var filters, sessions := ListsFirst(b);
    assert (filters + sessions)[k] == filters[k];
  }

  /**
   For every accepted configuration with sessions, every policy of kept terms, every semantics
   of the atomic tests and edits and every route, the emitted filter gives the verdict and
   the edits of the policy.
   */
  lemma PolicyKeepsItsMeaning<R>(m: Meaning<R>, b: Bgp, k: nat, r: R)
    requires Translate(b).Some? && b.sessions.Some? && k < |b.policies| && AllKept(b, b.policies[k].value.terms)
    ensures var i := FilterIndex(b, k);
            && i < |Translate(b).value| && Translate(b).value[i].Filter?
            && Translate(b).value[i].name == b.policies[k].name
            && RunFilter(m, Translate(b).value, i, r) == RunTerms(m, b, b.policies[k].value.terms, r)
  {
    FilterAt(b, k);
    PrefixAgrees(b, FilterIndex(b, k));
    TermsKeepTheirMeaning(m, b, Translate(b).value[..FilterIndex(b, k)], b.policies[k].value.terms, r);
  }

  /** A filter never falls off its end: an accepted route was accepted by a term. */
  lemma {:induction false} PoliciesDecide<R>(m: Meaning<R>, b: Bgp, terms: seq<Term>, r: R)
    requires forall i :: 0 <= i < |terms| ==> !terms[i].act.action.CallRule?
    ensures RunTerms(m, b, terms, r).Verdict?
    ensures RunTerms(m, b, terms, r).accept ==> exists i :: 0 <= i < |terms| && terms[i].act.action == Permit
    decreases |terms|
  {
    if terms != [] {
      match RunTerm(m, b, terms[0], r)
      case Next(r') =>
        PoliciesDecide(m, b, terms[1..], r');
        if RunTerms(m, b, terms[1..], r').accept {
          var i :| 0 <= i < |terms[1..]| && terms[1..][i].act.action == Permit;
          assert terms[i + 1].act.action == Permit;
        }
      case _ =>
    }
  }
}

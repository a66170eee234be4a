/**
 What the converter makes of a configuration document, as abstract syntax; None where it
 reports an error.  Names: pairwise distinct, and defined before use.
 */
module BirdTranslate {
  import opened Options
  import opened BirdSource
  import opened BirdTarget

  function Join<T>(a: Option<seq<T>>, b: Option<seq<T>>): Option<seq<T>> {
    if a.None? || b.None? then None else Some(a.value + b.value)
  }

  // ---------- Prefix ranges ----------

  /** The outer option is None for a rejected entry, the inner one for an entry printed without bounds. */
  function TranslateRange(len: nat, ge: Option<nat>, le: Option<nat>, max: nat): Option<Option<Range>> {
    if ge.Some? && le.Some? then
      if len > ge.value || len > le.value || ge.value > le.value then None else Some(Some(Range(ge.value, le.value)))
    else if ge.Some? then
      if len > ge.value then None else Some(Some(Range(ge.value, max)))
    else if le.Some? then
      if len > le.value then None else Some(Some(Range(len, le.value)))
    else Some(None)
  }

  function TranslateEntry(e: PrefixEntry, max: nat): Option<Entry> {
    match TranslateRange(e.pfx.len, e.ge, e.le, max)
    case None => None
    case Some(range) => Some(Entry(e.pfx, range))
  }

  function TranslateEntries(es: seq<PrefixEntry>, max: nat): (r: Option<seq<Entry>>)
    ensures r.Some? ==> |r.value| == |es|
    ensures r.Some? ==> forall i :: 0 <= i < |es| ==> TranslateEntry(es[i], max) == Some(r.value[i])
    ensures r.None? ==> exists i :: 0 <= i < |es| && TranslateEntry(es[i], max) == None
  {
    if es == [] then Some([]) else
    match TranslateEntry(es[0], max)
    case None => None
    case Some(e) =>
      match TranslateEntries(es[1..], max)
      case None =>
        assert forall i :: 0 <= i < |es| - 1 ==> es[i + 1] == es[1..][i];
        None
      case Some(rest) => Some([e] + rest)
  }

  // ---------- Conditions ----------

  function TranslatePath(b: Bgp, cmp: Cmp, sel: Option<PathSelect>): Option<seq<Test>> {
    match sel
    case None => Some([])
    case Some(PathInline(asns)) => Some([PathTest(cmp, Mask(asns))])
    case Some(PathList(n)) => if Find(b.asPathLists, n).Some? then Some([PathTest(cmp, PathName(n))]) else None
    case Some(PathPattern(_)) => None
  }

  function TranslateOperand(lists: seq<Named<seq<Community>>>, sel: CommSelect): Option<CommOperand> {
    match sel
    case CommInline(cs) => Some(CommSet(cs))
    case CommList(n) => if Find(lists, n).Some? then Some(CommName(n)) else None
  }

  function TranslateComm(b: Bgp, cmp: Cmp, sel: Option<CommSelect>): Option<seq<Test>> {
    if sel.None? then Some([]) else
    match TranslateOperand(b.communityLists, sel.value)
    case None => None
    case Some(o) => Some([CommTest(cmp, o)])
  }

  function TranslateExt(b: Bgp, cmp: Cmp, sel: Option<CommSelect>): Option<seq<Test>> {
    if sel.None? then Some([]) else
    match TranslateOperand(b.extCommunityLists, sel.value)
    case None => None
    case Some(o) => Some([ExtTest(cmp, o)])
  }

  /** Only the first prefix of the object is looked at. */
  function TranslateNetEq(net: Option<NetEq>): Option<seq<Test>> {
    if net.None? || net.value.entries == [] then Some([]) else
    match TranslateEntry(net.value.entries[0], MaxLength(net.value.family))
    case None => None
    case Some(e) => Some([NetTest(e.pfx, e.range)])
  }

  const CHECKS: nat := 10

  /** The k-th check renderer, in the order in which they are called; "net-in" never finds its operand. */
  function CheckAt(b: Bgp, m: IfMatch, k: nat): Option<seq<Test>>
    requires k < CHECKS
  {
    if k == 0 then TranslatePath(b, Eq, m.asPathEq)
    else if k == 1 then TranslatePath(b, In, m.asPathIn)
    else if k == 2 then TranslateComm(b, Eq, m.communityEq)
    else if k == 3 then TranslateComm(b, In, m.communityIn)
    else if k == 4 then TranslateExt(b, Eq, m.extCommunityEq)
    else if k == 5 then TranslateExt(b, In, m.extCommunityIn)
    else if k == 6 then TranslateNetEq(m.netEq)
    else if k == 7 then Some([])
    else if k == 8 then Some(if m.netTypeEq.Some? then [NetTypeTest(m.netTypeEq.value)] else [])
    else Some(if m.sourceEq.Some? then [SourceTest(m.sourceEq.value)] else [])
  }

  function ChecksUpTo(b: Bgp, m: IfMatch, k: nat): Option<seq<Test>>
    requires k <= CHECKS
  {
    if k == 0 then Some([]) else Join(ChecksUpTo(b, m, k - 1), CheckAt(b, m, k - 1))
  }

  function Checks(b: Bgp, m: IfMatch): Option<seq<Test>> {
    ChecksUpTo(b, m, CHECKS)
  }

  function CondOf(any: bool, ts: seq<Test>): Cond
    requires |ts| > 0
  {
    var n := |ts| - 1;
    if n == 0 then One(ts[0])
    else if any then Either(CondOf(any, ts[..n]), ts[n])
    else Both(CondOf(any, ts[..n]), ts[n])
  }

  // ---------- Actions ----------

  function TranslatePrepend(p: Option<PathPrepend>): seq<Simple> {
    match p
    case None => []
    case Some(PathPrepend(asn, times)) => seq(if times.Some? then times.value else 1, _ => Prepend(asn))
  }

  /** A referenced list may hold a single community only. */
  function TranslateAdd(b: Bgp, add: Option<CommAdd>): Option<seq<Simple>> {
    match add
    case None => Some([])
    case Some(AddInline(c)) => Some([AddComm(Literal([c]))])
    case Some(AddList(None)) => None
    case Some(AddList(Some(n))) =>
      match Find(b.communityLists, n)
      case None => None
      case Some(cs) => if |cs| > 1 then None else Some([AddComm(ByName(n))])
  }

  function TranslateRemove(b: Bgp, remove: Option<CommSelect>): Option<seq<Simple>> {
    match remove
    case None => Some([])
    case Some(CommInline(cs)) => Some([DeleteComm(Literal(cs))])
    case Some(CommList(n)) => if Find(b.communityLists, n).Some? then Some([DeleteComm(ByName(n))]) else None
  }

  function TranslateVerdict(a: Action): Option<seq<Simple>> {
    match a
    case Deny => Some([Reject])
    case Permit => Some([Accept])
    case CallNext => Some([])
    case CallRule(_) => None
  }

  function TranslateSets(a: Then): seq<Simple> {
    (if a.localPreference.Some? then [SetPref(a.localPreference.value)] else [])
    + (if a.med.Some? then [SetMed(a.med.value)] else [])
  }

  /** The edits alone, in the order in which they are printed. */
  function TranslateEdits(b: Bgp, a: Then): Option<seq<Simple>> {
    Join(Join(Join(Some(TranslatePrepend(a.prepend)), TranslateAdd(b, a.communityAdd)),
              TranslateRemove(b, a.communityRemove)),
         Some(TranslateSets(a)))
  }

  function TranslateThen(b: Bgp, a: Then): Option<seq<Simple>> {
    Join(TranslateEdits(b, a), TranslateVerdict(a.action))
  }

  // ---------- Terms, policies, sections ----------

  /** A term none of whose conditions is rendered disappears with its actions. */
  function TranslateTerm(b: Bgp, t: Term): Option<seq<Stmt>> {
    match Checks(b, t.cond)
    case None => None
    case Some(ts) =>
      if ts == [] then Some([]) else
      match TranslateThen(b, t.act)
      case None => None
      case Some(body) => Some([If(CondOf(t.cond.matchAny, ts), body)])
  }

  function TranslateTerms(b: Bgp, terms: seq<Term>): Option<seq<Stmt>> {
    if terms == [] then Some([]) else Join(TranslateTerm(b, terms[0]), TranslateTerms(b, terms[1..]))
  }

  /** A "default-action" inside the policy is taken for a term without conditions and fails. */
  function TranslatePolicy(b: Bgp, p: Named<Policy>): Option<Decl> {
    if p.value.defaultAction.Some? then None else
    match TranslateTerms(b, p.value.terms)
    case None => None
    case Some(stmts) => Some(Filter(p.name, stmts + [Do(Reject)]))
  }

  function TranslateNets(l: Named<seq<PrefixEntry>>, max: nat): Option<Decl> {
    match TranslateEntries(l.value, max)
    case None => None
    case Some(entries) => Some(DefineNets(l.name, entries))
  }

  predicate KnownPolicy(b: Bgp, policy: Option<string>) {
    policy.Some? ==> Find(b.policies, policy.value).Some?
  }

  predicate KnownChannel(b: Bgp, c: Option<Channel>) {
    c.Some? ==> KnownPolicy(b, c.value.policyIn) && KnownPolicy(b, c.value.policyOut)
  }

  function TranslateSession(b: Bgp, s: Session): Option<Decl> {
    if (s.ipv4.None? && s.ipv6.None?) || !KnownChannel(b, s.ipv4) || !KnownChannel(b, s.ipv6) then None
    else Some(BgpSession(s.name, s.ipv4, s.ipv6))
  }

  function AsnDecls(lists: seq<Named<seq<nat>>>): seq<Decl> {
    seq(|lists|, i requires 0 <= i < |lists| => DefineAsns(lists[i].name, lists[i].value))
  }

  function CommDecls(lists: seq<Named<seq<Community>>>): seq<Decl> {
    seq(|lists|, i requires 0 <= i < |lists| => DefineComms(lists[i].name, lists[i].value))
  }

  function NetDecls(lists: seq<Named<seq<PrefixEntry>>>, max: nat): (r: Option<seq<Decl>>)
    ensures r.Some? ==> |r.value| == |lists|
    ensures r.Some? ==> forall i :: 0 <= i < |lists| ==> TranslateNets(lists[i], max) == Some(r.value[i])
  {
    if lists == [] then Some([]) else
    match TranslateNets(lists[0], max)
    case None => None
    case Some(d) => Join(Some([d]), NetDecls(lists[1..], max))
  }

  function FilterDecls(b: Bgp, policies: seq<Named<Policy>>): (r: Option<seq<Decl>>)
    ensures r.Some? ==> |r.value| == |policies|
    ensures r.Some? ==> forall i :: 0 <= i < |policies| ==> TranslatePolicy(b, policies[i]) == Some(r.value[i])
  {
    if policies == [] then Some([]) else
    match TranslatePolicy(b, policies[0])
    case None => None
    case Some(d) => Join(Some([d]), FilterDecls(b, policies[1..]))
  }

  function SessionDecls(b: Bgp, sessions: seq<Session>): (r: Option<seq<Decl>>)
    ensures r.Some? ==> |r.value| == |sessions|
    ensures r.Some? ==> forall i :: 0 <= i < |sessions| ==> TranslateSession(b, sessions[i]) == Some(r.value[i])
  {
    if sessions == [] then Some([]) else
    match TranslateSession(b, sessions[0])
    case None => None
    case Some(d) => Join(Some([d]), SessionDecls(b, sessions[1..]))
  }

  predicate Distinct(names: seq<string>) {
    forall i, j :: 0 <= i < j < |names| ==> names[i] != names[j]
  }

  function ListNames(b: Bgp): seq<string> {
    Names(b.asPathLists) + Names(b.communityLists) + Names(b.extCommunityLists) + Names(b.largeCommunityLists)
    + Names(b.prefixV4Lists) + Names(b.prefixV6Lists)
  }

  function AllNames(b: Bgp): seq<string> {
    ListNames(b) + Names(b.policies)
  }

  function ListDecls(b: Bgp): Option<seq<Decl>> {
    Join(Join(Some(AsnDecls(b.asPathLists) + CommDecls(b.communityLists) + CommDecls(b.extCommunityLists)
                   + CommDecls(b.largeCommunityLists)),
              NetDecls(b.prefixV4Lists, 32)),
         NetDecls(b.prefixV6Lists, 128))
  }

  /** Without a "sessions" object nothing of the BGP part is printed, once all of it has been checked. */
  function Translate(b: Bgp): Option<seq<Decl>> {
    if !Distinct(AllNames(b)) then None else
    match Join(ListDecls(b), FilterDecls(b, b.policies))
    case None => None
    case Some(ds) => if b.sessions.None? then Some([]) else Join(Some(ds), SessionDecls(b, b.sessions.value))
  }

  // ---------- Names ----------

  /** The name a declaration adds to the name space of lists and filters. */
  function Defined(d: Decl): Option<string> {
    match d
    case DefineAsns(n, _) => Some(n)
    case DefineComms(n, _) => Some(n)
    case DefineNets(n, _) => Some(n)
    case Filter(n, _) => Some(n)
    case BgpSession(_, _, _) => None
  }

  function TestUses(t: Test): set<string> {
    match t
    case PathTest(_, PathName(n)) => {n}
    case CommTest(_, CommName(n)) => {n}
    case ExtTest(_, CommName(n)) => {n}
    case _ => {}
  }

  function CondUses(c: Cond): set<string> {
    match c
    case One(t) => TestUses(t)
    case Both(l, t) => CondUses(l) + TestUses(t)
    case Either(l, t) => CondUses(l) + TestUses(t)
  }

  function SimpleUses(s: Simple): set<string> {
    match s
    case AddComm(ByName(n)) => {n}
    case DeleteComm(ByName(n)) => {n}
    case _ => {}
  }

  function StmtUses(s: Stmt): set<string> {
    match s
    case If(cond, body) => CondUses(cond) + set i, n | 0 <= i < |body| && n in SimpleUses(body[i]) :: n
    case Do(simple) => SimpleUses(simple)
  }

  function ChannelUses(c: Option<Channel>): set<string> {
    if c.None? then {} else
    (if c.value.policyIn.Some? then {c.value.policyIn.value} else {})
    + (if c.value.policyOut.Some? then {c.value.policyOut.value} else {})
  }

  function Uses(d: Decl): set<string> {
    match d
    case Filter(_, stmts) => set i, n | 0 <= i < |stmts| && n in StmtUses(stmts[i]) :: n
    case BgpSession(_, v4, v6) => ChannelUses(v4) + ChannelUses(v6)
    case _ => {}
  }

  function Lookup(ds: seq<Decl>, name: string): Option<Decl> {
    if ds == [] then None
    else if Defined(ds[0]) == Some(name) then Some(ds[0])
    else Lookup(ds[1..], name)
  }

  ghost predicate DistinctlyDefined(ds: seq<Decl>) {
    forall i, j :: 0 <= i < j < |ds| && Defined(ds[i]).Some? ==> Defined(ds[i]) != Defined(ds[j])
  }

  /** Every name a declaration uses is defined by an earlier one: lists for filters, filters for sessions. */
  ghost predicate DefinedBeforeUse(ds: seq<Decl>) {
    forall i, n :: 0 <= i < |ds| && n in Uses(ds[i]) ==> exists j :: 0 <= j < i && Defines(ds, j, i, n)
  }

  ghost predicate Defines(ds: seq<Decl>, j: nat, i: nat, n: string)
    requires j < i < |ds|
  {
    Defined(ds[j]) == Some(n) && (ds[j].Filter? <==> ds[i].BgpSession?)
  }

  lemma {:induction false} FindSome<T>(lists: seq<Named<T>>, name: string) returns (i: nat)
    requires Find(lists, name).Some?
    ensures i < |lists| && lists[i].name == name && Find(lists, name) == Some(lists[i].value)
  {
    if lists[0].name == name {
      i := 0;
    } else {
      var k := FindSome(lists[1..], name);
      i := k + 1;
    }
  }

  lemma {:induction false} LookupFindsTheOne(ds: seq<Decl>, i: nat, name: string)
    requires i < |ds| && Defined(ds[i]) == Some(name) && DistinctlyDefined(ds)
    ensures Lookup(ds, name) == Some(ds[i])
  {
    if i > 0 {
      assert ds[1..][i - 1] == ds[i];
      assert Defined(ds[0]) != Some(name);
      LookupFindsTheOne(ds[1..], i - 1, name);
    }
  }

  lemma NetDeclNames(lists: seq<Named<seq<PrefixEntry>>>, max: nat)
    requires NetDecls(lists, max).Some?
    ensures var ds := NetDecls(lists, max).value;
            |ds| == |lists| && forall i :: 0 <= i < |ds| ==> ds[i].DefineNets? && ds[i].name == lists[i].name
  {
    var ds := NetDecls(lists, max).value;
    forall i | 0 <= i < |ds| ensures ds[i].DefineNets? && ds[i].name == lists[i].name {
      assert TranslateNets(lists[i], max) == Some(ds[i]);
    }
  }

  /** One list definition for each list name, in order. */
  lemma ListDeclNames(b: Bgp)
    requires ListDecls(b).Some?
    ensures ListsNamed(ListDecls(b).value, ListNames(b))
  {
    hide NetDecls, Names;
    NetDeclNames(b.prefixV4Lists, 32);
    NetDeclNames(b.prefixV6Lists, 128);
    var c1, c2, c3 := CommDecls(b.communityLists), CommDecls(b.extCommunityLists), CommDecls(b.largeCommunityLists);
    var v4, v6 := NetDecls(b.prefixV4Lists, 32).value, NetDecls(b.prefixV6Lists, 128).value;
    var asns := AsnDecls(b.asPathLists);
    SectionNames(asns, c1, Names(b.asPathLists), Names(b.communityLists));
    SectionNames(asns + c1, c2, Names(b.asPathLists) + Names(b.communityLists), Names(b.extCommunityLists));
    SectionNames(asns + c1 + c2, c3,
                 Names(b.asPathLists) + Names(b.communityLists) + Names(b.extCommunityLists),
                     Names(b.largeCommunityLists));
    var names := Names(b.asPathLists) + Names(b.communityLists) + Names(b.extCommunityLists)
        + Names(b.largeCommunityLists);
    SectionNames(asns + c1 + c2 + c3, v4, names, Names(b.prefixV4Lists));
    SectionNames(asns + c1 + c2 + c3 + v4, v6, names + Names(b.prefixV4Lists), Names(b.prefixV6Lists));
  }

  ghost predicate ListsNamed(ds: seq<Decl>, names: seq<string>) {
    && |ds| == |names|
    && forall i :: 0 <= i < |ds| ==> Defined(ds[i]) == Some(names[i]) && !ds[i].Filter? && Uses(ds[i]) == {}
  }

  lemma SectionNames(ds: seq<Decl>, es: seq<Decl>, names: seq<string>, more: seq<string>)
    requires ListsNamed(ds, names) && ListsNamed(es, more)
    ensures ListsNamed(ds + es, names + more)
  {
    hide Defined, Uses;
  }

  lemma AsnDeclAt(b: Bgp, i: nat)
    requires ListDecls(b).Some? && i < |b.asPathLists|
    ensures i < |ListDecls(b).value|
            && ListDecls(b).value[i] == DefineAsns(b.asPathLists[i].name, b.asPathLists[i].value)
  {
  }

  lemma CommDeclAt(b: Bgp, i: nat)
    requires ListDecls(b).Some? && i < |b.communityLists|
    ensures var j := |b.asPathLists| + i;
            j < |ListDecls(b).value|
                && ListDecls(b).value[j] == DefineComms(b.communityLists[i].name, b.communityLists[i].value)
  {
  }

  lemma ExtCommDeclAt(b: Bgp, i: nat)
    requires ListDecls(b).Some? && i < |b.extCommunityLists|
    ensures var j := |b.asPathLists| + |b.communityLists| + i;
            j < |ListDecls(b).value|
                && ListDecls(b).value[j] == DefineComms(b.extCommunityLists[i].name, b.extCommunityLists[i].value)
  {
  }

  lemma ListDefined(b: Bgp, name: string) returns (j: nat)
    requires ListDecls(b).Some? && IsListName(b, name)
    ensures j < |ListDecls(b).value| && Defined(ListDecls(b).value[j]) == Some(name)
  {
    if Find(b.asPathLists, name).Some? {
      j := FindSome(b.asPathLists, name);
      AsnDeclAt(b, j);
    } else if Find(b.communityLists, name).Some? {
      var i := FindSome(b.communityLists, name);
      CommDeclAt(b, i);
      j := |b.asPathLists| + i;
    } else {
      var i := FindSome(b.extCommunityLists, name);
      ExtCommDeclAt(b, i);
      j := |b.asPathLists| + |b.communityLists| + i;
    }
  }

  // Which names a translated term can mention.

  ghost predicate IsListName(b: Bgp, n: string) {
    Find(b.asPathLists, n).Some? || Find(b.communityLists, n).Some? || Find(b.extCommunityLists, n).Some?
  }

  lemma {:induction false} ChecksUseLists(b: Bgp, m: IfMatch, k: nat)
    requires k <= CHECKS && ChecksUpTo(b, m, k).Some?
    ensures var ts := ChecksUpTo(b, m, k).value;
            forall i, n :: 0 <= i < |ts| && n in TestUses(ts[i]) ==> IsListName(b, n)
  {
    if k > 0 {
      ChecksUseLists(b, m, k - 1);
    }
  }

  lemma {:induction false} CondUsesTests(any: bool, ts: seq<Test>)
    requires |ts| > 0
    ensures forall n :: n in CondUses(CondOf(any, ts)) ==> exists i :: 0 <= i < |ts| && n in TestUses(ts[i])
  {
    var k := |ts| - 1;
    if k > 0 {
      CondUsesTests(any, ts[..k]);
      forall n | n in CondUses(CondOf(any, ts)) ensures exists i :: 0 <= i < |ts| && n in TestUses(ts[i]) {
        if n in TestUses(ts[k]) {
        } else {
          assert n in CondUses(CondOf(any, ts[..k]));
          var i :| 0 <= i < |ts[..k]| && n in TestUses(ts[..k][i]);
          assert ts[i] == ts[..k][i];
        }
      }
    }
  }

  /** Every statement of a body comes from one of the five parts. */
  lemma ThenParts(b: Bgp, a: Then, s: Simple)
    requires TranslateThen(b, a).Some? && s in TranslateThen(b, a).value
    ensures s in TranslatePrepend(a.prepend) || s in TranslateAdd(b, a.communityAdd).value
            || s in TranslateRemove(b, a.communityRemove).value || s in TranslateSets(a)
                 || s in TranslateVerdict(a.action).value
  {
    hide TranslatePrepend, TranslateAdd, TranslateRemove, TranslateSets, TranslateVerdict;
  }

  lemma SimpleUsesList(b: Bgp, a: Then, s: Simple)
    requires TranslateThen(b, a).Some? && s in TranslateThen(b, a).value
    ensures forall n :: n in SimpleUses(s) ==> IsListName(b, n)
  {
    hide IsListName, SimpleUses, TranslatePrepend, TranslateAdd, TranslateRemove, TranslateSets, TranslateVerdict;
    ThenParts(b, a, s);
    AddUsesList(b, a.communityAdd);
    RemoveUsesList(b, a.communityRemove);
    OthersUseNothing(a, s);
  }

  lemma AddUsesList(b: Bgp, add: Option<CommAdd>)
    ensures TranslateAdd(b, add).Some? ==>
              forall s, n :: s in TranslateAdd(b, add).value && n in SimpleUses(s) ==> IsListName(b, n)
  {
  }

  lemma RemoveUsesList(b: Bgp, remove: Option<CommSelect>)
    ensures TranslateRemove(b, remove).Some? ==>
              forall s, n :: s in TranslateRemove(b, remove).value && n in SimpleUses(s) ==> IsListName(b, n)
  {
  }

  lemma OthersUseNothing(a: Then, s: Simple)
    ensures s in TranslatePrepend(a.prepend) || s in TranslateSets(a) ==> SimpleUses(s) == {}
    ensures TranslateVerdict(a.action).Some? && s in TranslateVerdict(a.action).value ==> SimpleUses(s) == {}
  {
  }

  lemma ThenUsesLists(b: Bgp, a: Then)
    requires TranslateThen(b, a).Some?
    ensures var ss := TranslateThen(b, a).value;
            forall i, n :: 0 <= i < |ss| && n in SimpleUses(ss[i]) ==> IsListName(b, n)
  {
    hide TranslateThen, SimpleUses, IsListName;
    var body := TranslateThen(b, a).value;
    forall i | 0 <= i < |body| ensures forall n :: n in SimpleUses(body[i]) ==> IsListName(b, n) {
      SimpleUsesList(b, a, body[i]);
    }
  }

  lemma {:induction false} TermsUseLists(b: Bgp, terms: seq<Term>)
    requires TranslateTerms(b, terms).Some?
    ensures var ss := TranslateTerms(b, terms).value;
            forall i, n :: 0 <= i < |ss| && n in StmtUses(ss[i]) ==> IsListName(b, n)
  {
    if terms != [] {
      TermsUseLists(b, terms[1..]);
      var ts := Checks(b, terms[0].cond).value;
      if ts != [] {
        ChecksUseLists(b, terms[0].cond, CHECKS);
        CondUsesTests(terms[0].cond.matchAny, ts);
        ThenUsesLists(b, terms[0].act);
      }
    }
  }

  lemma FilterUsesLists(b: Bgp, p: Named<Policy>)
    requires TranslatePolicy(b, p).Some?
    ensures forall n :: n in Uses(TranslatePolicy(b, p).value) ==> IsListName(b, n)
  {
    TermsUseLists(b, p.value.terms);
    var stmts := TranslateTerms(b, p.value.terms).value;
    forall n | n in Uses(TranslatePolicy(b, p).value) ensures IsListName(b, n) {
      var i :| 0 <= i < |stmts + [Do(Reject)]| && n in StmtUses((stmts + [Do(Reject)])[i]);
      assert i < |stmts|;
      assert (stmts + [Do(Reject)])[i] == stmts[i];
    }
  }

  lemma FilterDeclNames(b: Bgp)
    requires FilterDecls(b, b.policies).Some?
    ensures var ds := FilterDecls(b, b.policies).value;
            |ds| == |b.policies| && forall i :: 0 <= i < |ds| ==> ds[i].Filter? && ds[i].name == b.policies[i].name
  {
    var ds := FilterDecls(b, b.policies).value;
    forall i | 0 <= i < |ds| ensures ds[i].Filter? && ds[i].name == b.policies[i].name {
      assert TranslatePolicy(b, b.policies[i]) == Some(ds[i]);
    }
  }

  /** The declarations of a successful conversion: lists, then filters, then sessions. */
  lemma Layout(b: Bgp) returns (lists: seq<Decl>, filters: seq<Decl>, sessions: seq<Decl>)
    requires Translate(b).Some? && b.sessions.Some?
    ensures ListDecls(b) == Some(lists) && FilterDecls(b, b.policies) == Some(filters)
    ensures SessionDecls(b, b.sessions.value) == Some(sessions)
    ensures Translate(b).value == lists + filters + sessions
    ensures |lists| == |ListNames(b)| && |filters| == |b.policies|
    ensures |lists + filters| == |AllNames(b)| && Distinct(AllNames(b))
    ensures forall i :: 0 <= i < |lists + filters| ==> Defined((lists + filters)[i]) == Some(AllNames(b)[i])
    ensures forall i :: 0 <= i < |lists| ==> Uses(lists[i]) == {} && !lists[i].Filter?
    ensures forall i :: 0 <= i < |filters| ==> filters[i].Filter?
    ensures forall i :: 0 <= i < |sessions| ==> sessions[i].BgpSession?
  {
    hide ListDecls, FilterDecls, SessionDecls, TranslatePolicy, TranslateSession, Distinct, ListNames, Defined, Uses;
    lists, filters := ListDecls(b).value, FilterDecls(b, b.policies).value;
    sessions := SessionDecls(b, b.sessions.value).value;
    ListDeclNames(b);
    FilterDeclNames(b);
    NamesOfParts(b, lists, filters);
    forall i | 0 <= i < |sessions| ensures sessions[i].BgpSession? {
      assert TranslateSession(b, b.sessions.value[i]) == Some(sessions[i]);
      SessionIsSession(b, b.sessions.value[i]);
    }
  }

  lemma SessionIsSession(b: Bgp, s: Session)
    ensures TranslateSession(b, s).Some? ==> TranslateSession(b, s).value.BgpSession?
  {
  }

  lemma NamesOfParts(b: Bgp, lists: seq<Decl>, filters: seq<Decl>)
    requires |lists| == |ListNames(b)| && |filters| == |b.policies|
    requires forall i :: 0 <= i < |lists| ==> Defined(lists[i]) == Some(ListNames(b)[i])
    requires forall i :: 0 <= i < |filters| ==> filters[i].Filter? && filters[i].name == b.policies[i].name
    ensures |lists + filters| == |AllNames(b)|
    ensures forall i :: 0 <= i < |lists + filters| ==> Defined((lists + filters)[i]) == Some(AllNames(b)[i])
  {
    hide ListNames;
  }

  lemma DistinctInParts(named: seq<Decl>, rest: seq<Decl>, names: seq<string>)
    requires |named| == |names| && Distinct(names)
    requires forall i :: 0 <= i < |named| ==> Defined(named[i]) == Some(names[i])
    requires forall i :: 0 <= i < |rest| ==> rest[i].BgpSession?
    ensures DistinctlyDefined(named + rest)
  {
  }

  /** One of these declarations, filters or lists, defines the name. */
  ghost predicate DefinedAmong(ds: seq<Decl>, filter: bool, n: string) {
    exists j :: 0 <= j < |ds| && DefinesName(ds[j], filter, n)
  }

  ghost predicate DefinesName(d: Decl, filter: bool, n: string) {
    Defined(d) == Some(n) && (d.Filter? <==> filter)
  }

  ghost predicate UsesDefined(d: Decl, ds: seq<Decl>, filter: bool) {
    forall n :: n in Uses(d) ==> DefinedAmong(ds, filter, n)
  }

  lemma DefinedInParts(lists: seq<Decl>, filters: seq<Decl>, sessions: seq<Decl>)
    requires forall i :: 0 <= i < |lists| ==> Uses(lists[i]) == {}
    requires forall i :: 0 <= i < |filters| ==> filters[i].Filter? && UsesDefined(filters[i], lists, false)
    requires forall i :: 0 <= i < |sessions| ==> sessions[i].BgpSession? && UsesDefined(sessions[i], filters, true)
    ensures DefinedBeforeUse(lists + filters + sessions)
  {
    hide Uses, Defined, Defines, DefinedAmong, UsesDefined;
    var ds := lists + filters + sessions;
    assert forall i :: 0 <= i < |lists| ==> ds[i] == lists[i];
    forall i, n | |lists| <= i < |ds| && n in Uses(ds[i]) ensures exists j :: 0 <= j < i && Defines(ds, j, i, n) {
      if i < |lists| + |filters| {
        assert ds[i] == filters[i - |lists|];
        var j := DefinitionAmong(ds[i], lists, false, n);
        assert ds[j] == lists[j];
        DefinesHere(ds, j, i, n);
      } else {
        assert ds[i] == sessions[i - |lists| - |filters|];
        var j := DefinitionAmong(ds[i], filters, true, n);
        assert ds[|lists| + j] == filters[j];
        DefinesHere(ds, |lists| + j, i, n);
      }
    }
  }

  lemma DefinitionAmong(d: Decl, ds: seq<Decl>, filter: bool, n: string) returns (j: nat)
    requires UsesDefined(d, ds, filter) && n in Uses(d)
    ensures j < |ds| && DefinesName(ds[j], filter, n)
  {
    hide Uses, DefinesName;
    assert DefinedAmong(ds, filter, n);
    j :| 0 <= j < |ds| && DefinesName(ds[j], filter, n);
  }

  lemma DefinesHere(ds: seq<Decl>, j: nat, i: nat, n: string)
    requires j < i < |ds| && Defined(ds[j]) == Some(n) && (ds[j].Filter? <==> ds[i].BgpSession?)
    ensures Defines(ds, j, i, n)
  {
  }

  lemma FilterNamesAreDefined(b: Bgp, k: nat)
    requires ListDecls(b).Some? && FilterDecls(b, b.policies).Some? && k < |FilterDecls(b, b.policies).value|
    ensures UsesDefined(FilterDecls(b, b.policies).value[k], ListDecls(b).value, false)
  {
    hide ListDecls, Uses, Defined;
    var filter := FilterDecls(b, b.policies).value[k];
    assert TranslatePolicy(b, b.policies[k]) == Some(filter);
    FilterUsesLists(b, b.policies[k]);
    ListDeclNames(b);
    forall n | n in Uses(filter) ensures DefinedAmong(ListDecls(b).value, false, n) {
      var j := ListDefined(b, n);
      assert DefinesName(ListDecls(b).value[j], false, n);
    }
  }

  lemma SessionNamesAreDefined(b: Bgp, k: nat)
    requires FilterDecls(b, b.policies).Some? && b.sessions.Some? && SessionDecls(b, b.sessions.value).Some?
    requires k < |SessionDecls(b, b.sessions.value).value|
    ensures UsesDefined(SessionDecls(b, b.sessions.value).value[k], FilterDecls(b, b.policies).value, true)
  {
    hide FilterDecls;
    var session := SessionDecls(b, b.sessions.value).value[k];
    assert TranslateSession(b, b.sessions.value[k]) == Some(session);
    FilterDeclNames(b);
    forall n | n in Uses(session) ensures DefinedAmong(FilterDecls(b, b.policies).value, true, n) {
      var j := FindSome(b.policies, n);
      assert DefinesName(FilterDecls(b, b.policies).value[j], true, n);
    }
  }

  /** In the output of every successful conversion with sessions, names are unique and defined before use. */
  lemma NamesResolve(b: Bgp)
    requires Translate(b).Some? && b.sessions.Some?
    ensures DistinctlyDefined(Translate(b).value) && DefinedBeforeUse(Translate(b).value)
  {
    hide Translate, ListDecls, FilterDecls, SessionDecls, UsesDefined, DefinedBeforeUse, DistinctlyDefined;
    var lists, filters, sessions := Layout(b);
    DistinctInParts(lists + filters, sessions, AllNames(b));
    forall k | 0 <= k < |filters| ensures UsesDefined(filters[k], lists, false) {
      FilterNamesAreDefined(b, k);
    }
    forall k | 0 <= k < |sessions| ensures UsesDefined(sessions[k], filters, true) {
      SessionNamesAreDefined(b, k);
    }
    DefinedInParts(lists, filters, sessions);
  }
}

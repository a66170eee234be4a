/**
 The converter as it runs: streams written piece by piece, separators between entries, a
 put position moved back over a comma, and a table of taken names shared by the sections.
 Its output is the printed translation.
 */
module BirdConverter {
  import opened Options
  import opened BirdSource
  import opened BirdTarget
  import opened BirdTranslate

  /** An output stream with a put position: writing overwrites first and then appends. */
  class TokenStream {
    var text: seq<Token>
    var put: nat

    ghost predicate AtEnd() reads this { put == |text| }

    constructor ()
      ensures text == [] && AtEnd()
    {
      text, put := [], 0;
    }

    method Write(ts: seq<Token>)
      requires put <= |text|
      modifies this
      ensures put == old(put) + |ts|
      ensures text == old(text)[..old(put)] + ts + (if put <= |old(text)| then old(text)[put..] else [])
      ensures old(AtEnd()) ==> AtEnd() && text == old(text) + ts
    {
      var rest := if put + |ts| <= |text| then text[put + |ts|..] else [];
      text := text[..put] + ts + rest;
      put := put + |ts|;
    }

    method SeekBackOne()
      requires |text| > 0
      modifies this
      ensures text == old(text) && put == |text| - 1
    {
      put := |text| - 1;
    }
  }

  datatype Section =
    | AsPathLists
    | CommunityLists
    | ExtCommunityLists
    | LargeCommunityLists
    | PrefixV4Lists
    | PrefixV6Lists
    | Policies

  // ---------- The printed form, built from the left ----------

  function Printed(ds: Option<seq<Decl>>): Option<seq<Token>> {
    if ds.None? then None else Some(Print(ds.value))
  }

  lemma {:induction false} PrintConcat(a: seq<Decl>, c: seq<Decl>)
    ensures Print(a + c) == Print(a) + Print(c)
    decreases |a|
  {
    if a == [] {
      assert a + c == c;
    } else {
      assert (a + c)[1..] == a[1..] + c;
      PrintConcat(a[1..], c);
    }
  }

  lemma PrintSnoc(a: seq<Decl>, d: Decl)
    ensures Print(a + [d]) == Print(a) + PrintDecl(d)
  {
    PrintConcat(a, [d]);
    assert Print([d]) == PrintDecl(d) + Print([]);
  }

  lemma {:induction false} PrintBodyConcat(a: seq<Simple>, c: seq<Simple>)
    ensures PrintBody(a + c) == PrintBody(a) + PrintBody(c)
    decreases |a|
  {
    if a == [] {
      assert a + c == c;
    } else {
      assert (a + c)[1..] == a[1..] + c;
      PrintBodyConcat(a[1..], c);
    }
  }

  lemma {:induction false} PrintStmtsConcat(a: seq<Stmt>, c: seq<Stmt>)
    ensures PrintStmts(a + c) == PrintStmts(a) + PrintStmts(c)
    decreases |a|
  {
    if a == [] {
      assert a + c == c;
    } else {
      assert (a + c)[1..] == a[1..] + c;
      PrintStmtsConcat(a[1..], c);
    }
  }

  /** Entries as they are first written: each of them followed by a comma. */
  function WithCommas(es: seq<Entry>): seq<Token> {
    if es == [] then [] else PrintEntry(es[0]) + [Comma] + WithCommas(es[1..])
  }

  lemma {:induction false} WithCommasSnoc(es: seq<Entry>, e: Entry)
    ensures WithCommas(es + [e]) == WithCommas(es) + PrintEntry(e) + [Comma]
    decreases |es|
  {
    if es == [] {
      assert es + [e] == [e];
      assert WithCommas([e]) == PrintEntry(e) + [Comma] + [];
    } else {
      assert (es + [e])[1..] == es[1..] + [e];
      WithCommasSnoc(es[1..], e);
    }
  }

  /** Taking the last comma away leaves the separators between entries only. */
  lemma {:induction false} LastCommaIsExtra(es: seq<Entry>)
    requires es != []
    ensures WithCommas(es) == PrintEntries(es) + [Comma]
    decreases |es|
  {
    if |es| > 1 {
      LastCommaIsExtra(es[1..]);
    }
  }

  // ---------- The table of taken names ----------

  function NameSet(names: seq<string>): set<string> {
    set n | n in names
  }

  lemma NextName(names: seq<string>, n: string)
    requires Distinct(names)
    ensures Distinct(names + [n]) <==> n !in NameSet(names)
    ensures NameSet(names + [n]) == NameSet(names) + {n}
  {
    if n in names {
      var i :| 0 <= i < |names| && names[i] == n;
      assert (names + [n])[i] == (names + [n])[|names|];
    }
    forall x | x in NameSet(names) + {n} ensures x in NameSet(names + [n]) {
      if x == n {
        assert (names + [n])[|names|] == n;
      } else {
        var i :| 0 <= i < |names| && names[i] == x;
        assert (names + [n])[i] == x;
      }
    }
  }

  lemma DistinctPrefix(names: seq<string>, more: seq<string>)
    requires Distinct(names + more)
    ensures Distinct(names)
  {
    forall i, j | 0 <= i < j < |names| ensures names[i] != names[j] {
      assert (names + more)[i] != (names + more)[j];
    }
  }

  lemma NamesConcat<T>(a: seq<Named<T>>, c: seq<Named<T>>)
    ensures Names(a + c) == Names(a) + Names(c)
  {
  }

  /** The names of a section up to and including its i-th list. */
  lemma NamesUpTo<T>(used: seq<string>, lists: seq<Named<T>>, i: nat)
    requires i < |lists|
    ensures used + Names(lists[..i + 1]) == used + Names(lists[..i]) + [lists[i].name]
    ensures Distinct(used + Names(lists)) ==> Distinct(used + Names(lists[..i + 1]))
  {
    NamesConcat(lists[..i], [lists[i]]);
    assert lists[..i + 1] == lists[..i] + [lists[i]];
    NamesConcat(lists[..i + 1], lists[i + 1..]);
    assert lists == lists[..i + 1] + lists[i + 1..];
    assert Names([lists[i]]) == [lists[i].name];
    RightNested(used, Names(lists[..i]), [lists[i].name]);
    RightNested(used, Names(lists[..i + 1]), Names(lists[i + 1..]));
    hide Names, Distinct;
    if Distinct(used + Names(lists)) {
      DistinctPrefix(used + Names(lists[..i + 1]), Names(lists[i + 1..]));
    }
  }

  lemma RightNested<T>(a: seq<T>, c: seq<T>, d: seq<T>)
    ensures a + c + d == a + (c + d)
  {
  }

  // ---------- Conditions ----------

  /** The text of the at most one test of a check renderer. */
  function PrintedTest(ts: Option<seq<Test>>): Option<seq<Token>> {
    if ts.None? then None else if ts.value == [] then Some([]) else Some(PrintTest(ts.value[0]))
  }

  lemma NextComm(cs: seq<Community>, i: nat)
    requires i < |cs|
    ensures PrintComms(cs[i..]) == PrintComm(cs[i]) + if i + 1 < |cs| then [Comma] + PrintComms(cs[i + 1..]) else []
  {
    hide PrintComm;
    assert cs[i..][1..] == cs[i + 1..];
  }

  /** As the list sections do it: a comma before every community but the first. */
  method RenderCommsSeparatorFirst(cs: seq<Community>) returns (out: seq<Token>)
    requires |cs| > 0
    ensures out == PrintComms(cs)
  {
    hide PrintComms, PrintComm;
    out := PrintComm(cs[0]);
    NextComm(cs, 0);
    assert cs[0..] == cs;
    for i := 1 to |cs|
      invariant PrintComms(cs) == out + if i < |cs| then [Comma] + PrintComms(cs[i..]) else []
    {
      NextComm(cs, i);
      out := out + [Comma] + PrintComm(cs[i]);
    }
  }

  /** As the checks and actions do it: a comma after every community but the last. */
  method RenderCommsSeparatorLast(cs: seq<Community>) returns (out: seq<Token>)
    requires |cs| > 0
    ensures out == PrintComms(cs)
  {
    hide PrintComms, PrintComm;
    out := [];
    assert cs[0..] == cs;
    for i := 0 to |cs| - 1
      invariant PrintComms(cs) == out + PrintComms(cs[i..])
    {
      NextComm(cs, i);
      out := out + PrintComm(cs[i]) + [Comma];
    }
    NextComm(cs, |cs| - 1);
    out := out + PrintComm(cs[|cs| - 1]);
  }

  method RenderPathCheck(b: Bgp, cmp: Cmp, sel: Option<PathSelect>) returns (r: Option<seq<Token>>)
    ensures r == PrintedTest(TranslatePath(b, cmp, sel))
  {
    if sel.None? {
      return Some([]);
    }
    if sel.value.PathList? {
      if Find(b.asPathLists, sel.value.name).None? {
        return None;
      }
      return Some([LParen] + ([KPath, PrintCmp(cmp)] + [Name(sel.value.name)]) + [RParen]);
    }
    if !sel.value.PathInline? {
      return None;
    }
    var asns := sel.value.asns;
    var mask := [];
    assert asns[0..] == asns;
    for i := 0 to |asns|
      invariant PrintMask(asns) == mask + PrintMask(asns[i..])
    {
      assert asns[i..][1..] == asns[i + 1..];
      mask := mask + [Num(asns[i])];
    }
    assert mask == PrintMask(asns);
    return Some([LParen] + ([KPath, PrintCmp(cmp)] + ([LMask] + mask + [RMask])) + [RParen]);
  }

  method RenderCommCheck(kind: Token, lists: seq<Named<seq<Community>>>, cmp: Cmp, sel: Option<CommSelect>)
    returns (r: Option<seq<Token>>)
    requires ValidCommSelect(sel)
    ensures sel.None? ==> r == Some([])
    ensures sel.Some? ==>
              r == match TranslateOperand(lists, sel.value)
                   case None => None
                   case Some(o) => Some([LParen] + ([kind, PrintCmp(cmp)] + PrintCommOperand(o)) + [RParen])
  {
    if sel.None? {
      return Some([]);
    }
    if sel.value.CommList? {
      if Find(lists, sel.value.name).None? {
        return None;
      }
      return Some([LParen] + ([kind, PrintCmp(cmp)] + [Name(sel.value.name)]) + [RParen]);
    }
    var cs := RenderCommsSeparatorLast(sel.value.cs);
    return Some([LParen] + ([kind, PrintCmp(cmp)] + ([LBracket] + cs + [RBracket])) + [RParen]);
  }

  /** The IPv4 prefixes are looked at first and then the IPv6 ones, with a bound of their own each. */
  method RenderNetEqCheck(net: Option<NetEq>) returns (r: Option<seq<Token>>)
    ensures r == PrintedTest(TranslateNetEq(net))
  {
    hide TranslateEntry, PrintTest;
    if net.None? {
      return Some([]);
    }
    var entries := net.value.entries;
    if entries == [] {
      return Some([]);
    }
    if net.value.family == V4 {
      r := RenderNet4(entries[0]);
    } else {
      r := RenderNet6(entries[0]);
    }
  }

  function PrintedNet(e: Option<Entry>): Option<seq<Token>> {
    if e.None? then None else Some(PrintTest(NetTest(e.value.pfx, e.value.range)))
  }

  method RenderNet4(e: PrefixEntry) returns (r: Option<seq<Token>>)
    ensures r == PrintedNet(TranslateEntry(e, 32))
  {
    var range := [];
    if e.ge.Some? && e.le.Some? {
      if e.pfx.len > e.ge.value || e.pfx.len > e.le.value || e.ge.value > e.le.value {
        return None;
      }
      range := [LBrace, Num(e.ge.value), Comma, Num(e.le.value), RBrace];
    } else if e.ge.Some? {
      if e.pfx.len > e.ge.value {
        return None;
      }
      range := [LBrace, Num(e.ge.value), Comma, Num(32), RBrace];
    } else if e.le.Some? {
      if e.pfx.len > e.le.value {
        return None;
      }
      range := [LBrace, Num(e.pfx.len), Comma, Num(e.le.value), RBrace];
    }
    return Some([LParen] + ([KNet, Equals, Net(e.pfx)] + range) + [RParen]);
  }

  method RenderNet6(e: PrefixEntry) returns (r: Option<seq<Token>>)
    ensures r == PrintedNet(TranslateEntry(e, 128))
  {
    var range := [];
    if e.ge.Some? && e.le.Some? {
      if e.pfx.len > e.ge.value || e.pfx.len > e.le.value || e.ge.value > e.le.value {
        return None;
      }
      range := [LBrace, Num(e.ge.value), Comma, Num(e.le.value), RBrace];
    } else if e.ge.Some? {
      if e.pfx.len > e.ge.value {
        return None;
      }
      range := [LBrace, Num(e.ge.value), Comma, Num(128), RBrace];
    } else if e.le.Some? {
      if e.pfx.len > e.le.value {
        return None;
      }
      range := [LBrace, Num(e.pfx.len), Comma, Num(e.le.value), RBrace];
    }
    return Some([LParen] + ([KNet, Equals, Net(e.pfx)] + range) + [RParen]);
  }

  /** What stands between the parentheses of an if statement once k check renderers have been called. */
  ghost predicate CondText(b: Bgp, m: IfMatch, k: nat, hasCond: bool, out: seq<Token>)
    requires k <= CHECKS
  {
    && ChecksUpTo(b, m, k).Some?
    && var ts := ChecksUpTo(b, m, k).value;
       hasCond == (ts != []) && out == JoinedText(m.matchAny, ts)
  }

  /** The text of a joined condition, empty when there is no test. */
  function JoinedText(any: bool, ts: seq<Test>): seq<Token> {
    if ts == [] then [] else PrintCond(CondOf(any, ts))
  }

  lemma JoinedTextGrows(any: bool, ts: seq<Test>, c: seq<Test>)
    requires |c| <= 1
    ensures JoinedText(any, ts + c) == JoinedText(any, ts)
            + if c == [] then [] else (if ts == [] then [] else [if any then OrOr else AndAnd]) + PrintTest(c[0])
    ensures c != [] ==> PrintTest(c[0]) != []
  {
    if c == [] {
      assert ts + c == ts;
    } else {
      CondSnoc(any, ts, c[0]);
      hide PrintTest, PrintCond, CondOf;
      assert c == [c[0]];
    }
  }

  lemma AtMostOneTest(b: Bgp, m: IfMatch, k: nat)
    requires k < CHECKS && CheckAt(b, m, k).Some?
    ensures |CheckAt(b, m, k).value| <= 1
  {
  }

  lemma CondSnoc(any: bool, ts: seq<Test>, t: Test)
    ensures PrintTest(t) != []
    ensures PrintCond(CondOf(any, ts + [t])) ==
            if ts == [] then PrintTest(t)
            else PrintCond(CondOf(any, ts)) + [if any then OrOr else AndAnd] + PrintTest(t)
  {
    assert (ts + [t])[..|ts|] == ts;
    hide PrintTest;
  }

  lemma {:induction false} FailsForGood(b: Bgp, m: IfMatch, k: nat, n: nat)
    requires k < n <= CHECKS && CheckAt(b, m, k).None?
    ensures ChecksUpTo(b, m, n).None?
  {
    if k < n - 1 {
      FailsForGood(b, m, k, n - 1);
    }
  }

  lemma ChecksNext(b: Bgp, m: IfMatch, k: nat)
    requires k < CHECKS
    ensures ChecksUpTo(b, m, k + 1) == Join(ChecksUpTo(b, m, k), CheckAt(b, m, k))
  {
  }

  /** Appends the text of the k-th check, after a connective unless it is the first one. */
  method AppendCheck(b: Bgp, m: IfMatch, ghost k: nat, check: Option<seq<Token>>, hasCond: bool, out: seq<Token>)
    returns (ok: bool, hasCond': bool, out': seq<Token>)
    requires k < CHECKS && check == PrintedTest(CheckAt(b, m, k)) && CondText(b, m, k, hasCond, out)
    ensures ok ==> CondText(b, m, k + 1, hasCond', out')
    ensures !ok ==> Checks(b, m).None?
  {
    hide CheckAt, ChecksUpTo, JoinedText, PrintTest;
    if check.None? {
      FailsForGood(b, m, k, CHECKS);
      return false, hasCond, out;
    }
    AtMostOneTest(b, m, k);
    ghost var ts, c := ChecksUpTo(b, m, k).value, CheckAt(b, m, k).value;
    JoinedTextGrows(m.matchAny, ts, c);
    ChecksNext(b, m, k);
    hasCond', out' := hasCond, out;
    if check.value != [] {
      if hasCond {
        out' := out' + [if m.matchAny then OrOr else AndAnd];
      } else {
        hasCond' := true;
      }
      out' := out' + check.value;
    }
    return true, hasCond', out';
  }

  method RenderCommunityCheck(b: Bgp, cmp: Cmp, sel: Option<CommSelect>) returns (r: Option<seq<Token>>)
    requires ValidCommSelect(sel)
    ensures r == PrintedTest(TranslateComm(b, cmp, sel))
  {
    r := RenderCommCheck(KComm, b.communityLists, cmp, sel);
  }

  method RenderExtCommunityCheck(b: Bgp, cmp: Cmp, sel: Option<CommSelect>) returns (r: Option<seq<Token>>)
    requires ValidCommSelect(sel)
    ensures r == PrintedTest(TranslateExt(b, cmp, sel))
  {
    r := RenderCommCheck(KExt, b.extCommunityLists, cmp, sel);
  }

  lemma NoCondText(b: Bgp, m: IfMatch)
    ensures CondText(b, m, 0, false, [])
  {
  }

  /** The first six checks: AS paths, communities and extended communities. */
  method RenderListChecks(b: Bgp, m: IfMatch) returns (ok: bool, hasCond: bool, out: seq<Token>)
    requires ValidCommSelect(m.communityEq) && ValidCommSelect(m.communityIn)
    requires ValidCommSelect(m.extCommunityEq) && ValidCommSelect(m.extCommunityIn)
    ensures ok ==> CondText(b, m, 6, hasCond, out)
    ensures !ok ==> Checks(b, m).None?
  {
    hide CondText, PrintedTest, Checks, ChecksUpTo, TranslatePath, TranslateComm,
        TranslateExt, TranslateNetEq, ValidCommSelect;
    hasCond, out := false, [];
    NoCondText(b, m);
    var check := RenderPathCheck(b, Eq, m.asPathEq);
    ok, hasCond, out := AppendCheck(b, m, 0, check, hasCond, out);
    if !ok { return; }
    check := RenderPathCheck(b, In, m.asPathIn);
    ok, hasCond, out := AppendCheck(b, m, 1, check, hasCond, out);
    if !ok { return; }
    check := RenderCommunityCheck(b, Eq, m.communityEq);
    ok, hasCond, out := AppendCheck(b, m, 2, check, hasCond, out);
    if !ok { return; }
    check := RenderCommunityCheck(b, In, m.communityIn);
    ok, hasCond, out := AppendCheck(b, m, 3, check, hasCond, out);
    if !ok { return; }
    check := RenderExtCommunityCheck(b, Eq, m.extCommunityEq);
    ok, hasCond, out := AppendCheck(b, m, 4, check, hasCond, out);
    if !ok { return; }
    check := RenderExtCommunityCheck(b, In, m.extCommunityIn);
    ok, hasCond, out := AppendCheck(b, m, 5, check, hasCond, out);
  }

  /** The conditions of a term between the parentheses of its if statement; empty when none is rendered. */
  method RenderConditions(b: Bgp, m: IfMatch) returns (r: Option<seq<Token>>)
    requires ValidCommSelect(m.communityEq) && ValidCommSelect(m.communityIn)
    requires ValidCommSelect(m.extCommunityEq) && ValidCommSelect(m.extCommunityIn)
    ensures Checks(b, m).None? ==> r == None
    ensures Checks(b, m).Some? ==> r == Some(JoinedText(m.matchAny, Checks(b, m).value))
  {
    hide CondText, PrintedTest, Checks, ChecksUpTo, JoinedText, TranslatePath, TranslateComm,
      TranslateExt, TranslateNetEq, ValidCommSelect;
    var ok, hasCond, out := RenderListChecks(b, m);
    if !ok { return None; }
    NoTest();
    var check := RenderNetEqCheck(m.netEq);
    ok, hasCond, out := AppendCheck(b, m, 6, check, hasCond, out);
    if !ok { return None; }
    // "net-in" is looked up under the keys of its own operand, which are not there.
    ok, hasCond, out := AppendCheck(b, m, 7, Some([]), hasCond, out);
    if !ok { return None; }
    check := RenderNetTypeCheck(m.netTypeEq);
    ok, hasCond, out := AppendCheck(b, m, 8, check, hasCond, out);
    if !ok { return None; }
    check := RenderSourceCheck(m.sourceEq);
    ok, hasCond, out := AppendCheck(b, m, 9, check, hasCond, out);
    if !ok { return None; }
    AllChecksRendered(b, m, hasCond, out);
    if !hasCond {
      return Some([]);
    }
    return Some(out);
  }

  lemma AllChecksRendered(b: Bgp, m: IfMatch, hasCond: bool, out: seq<Token>)
    requires CondText(b, m, CHECKS, hasCond, out)
    ensures Checks(b, m).Some? && out == JoinedText(m.matchAny, Checks(b, m).value)
    ensures !hasCond ==> out == []
  {
  }

  lemma NoTest()
    ensures PrintedTest(Some([])) == Some([])
  {
  }

  method RenderNetTypeCheck(net: Option<Family>) returns (r: Option<seq<Token>>)
    ensures r == PrintedTest(Some(if net.Some? then [NetTypeTest(net.value)] else []))
  {
    if net.None? {
      return Some([]);
    }
    return Some([LParen] + [KNetType, Equals, if net.value == V4 then KIp4 else KIp6] + [RParen]);
  }

  method RenderSourceCheck(source: Option<Protocol>) returns (r: Option<seq<Token>>)
    ensures r == PrintedTest(Some(if source.Some? then [SourceTest(source.value)] else []))
  {
    if source.None? {
      return Some([]);
    }
    return Some([LParen] + [KSource, Equals, if source.value == FromBgp then KRtsBgp else KRtsStatic] + [RParen]);
  }

  // ---------- Actions ----------

  function PrintedBody(ss: Option<seq<Simple>>): Option<seq<Token>> {
    if ss.None? then None else Some(PrintBody(ss.value))
  }

  lemma PrintBodyOne(s: Simple)
    ensures PrintBody([s]) == PrintSimple(s)
  {
    assert PrintBody([s]) == PrintSimple(s) + PrintBody([]);
  }

  method RenderPrepend(p: Option<PathPrepend>) returns (out: seq<Token>)
    ensures out == PrintBody(TranslatePrepend(p))
  {
    out := [];
    if p.None? {
      return;
    }
    var count := 1;
    if p.value.times.Some? {
      count := p.value.times.value;
    }
    for i := 0 to count
      invariant out == PrintBody(seq(i, _ => Prepend(p.value.asn)))
    {
      var next := Prepend(p.value.asn);
      assert seq(i + 1, _ => next) == seq(i, _ => next) + [next];
      PrintBodyConcat(seq(i, _ => next), [next]);
      PrintBodyOne(next);
      out := out + [KPath, KPrepend, LParen, Num(p.value.asn), RParen, Semi];
    }
  }

  method RenderCommAdd(b: Bgp, add: Option<CommAdd>) returns (r: Option<seq<Token>>)
    ensures r == PrintedBody(TranslateAdd(b, add))
  {
    if add.None? {
      return Some([]);
    }
    if add.value.AddInline? {
      PrintBodyOne(AddComm(Literal([add.value.c])));
      return Some([KComm, KAdd, LParen] + PrintComm(add.value.c) + [RParen, Semi]);
    }
    if add.value.name.None? {
      return None;
    }
    var n := add.value.name.value;
    var cs := Find(b.communityLists, n);
    if cs.None? || |cs.value| > 1 {
      return None;
    }
    PrintBodyOne(AddComm(ByName(n)));
    return Some([KComm, KAdd, LParen] + [Name(n)] + [RParen, Semi]);
  }

  method RenderCommRemove(b: Bgp, remove: Option<CommSelect>) returns (r: Option<seq<Token>>)
    requires ValidCommSelect(remove)
    ensures r == PrintedBody(TranslateRemove(b, remove))
  {
    if remove.None? {
      return Some([]);
    }
    if remove.value.CommInline? {
      var cs := remove.value.cs;
      PrintBodyOne(DeleteComm(Literal(cs)));
      var comms := RenderCommsSeparatorLast(cs);
      var out := [KComm, KDelete, LParen];
      if |cs| > 1 {
        return Some(out + ([LBracket] + comms + [RBracket]) + [RParen, Semi]);
      }
      assert out + comms + [] == out + comms;
      return Some(out + comms);
    }
    var n := remove.value.name;
    if Find(b.communityLists, n).None? {
      return None;
    }
    PrintBodyOne(DeleteComm(ByName(n)));
    return Some([KComm, KDelete, LParen] + [Name(n)] + [RParen, Semi]);
  }

  method RenderSets(a: Then) returns (out: seq<Token>)
    ensures out == PrintBody(TranslateSets(a))
  {
    var pref, med := [], [];
    ghost var first: seq<Simple>, second: seq<Simple> := [], [];
    if a.localPreference.Some? {
      first := [SetPref(a.localPreference.value)];
      PrintBodyOne(first[0]);
      pref := [KPref, Equals, Num(a.localPreference.value), Semi];
    }
    if a.med.Some? {
      second := [SetMed(a.med.value)];
      PrintBodyOne(second[0]);
      med := [KMed, Equals, Num(a.med.value), Semi];
    }
    PrintBodyConcat(first, second);
    out := pref + med;
  }

  method RenderEdits(b: Bgp, a: Then) returns (r: Option<seq<Token>>)
    requires ValidCommSelect(a.communityRemove)
    ensures r == PrintedBody(TranslateEdits(b, a))
  {
    hide PrintBody, TranslateAdd, TranslateRemove;
    var prepends := RenderPrepend(a.prepend);
    var add := RenderCommAdd(b, a.communityAdd);
    if add.None? { return None; }
    var remove := RenderCommRemove(b, a.communityRemove);
    if remove.None? { return None; }
    var sets := RenderSets(a);
    PrintFourParts(TranslatePrepend(a.prepend), TranslateAdd(b, a.communityAdd).value,
                   TranslateRemove(b, a.communityRemove).value, TranslateSets(a));
    return Some(prepends + add.value + remove.value + sets);
  }

  method RenderThen(b: Bgp, a: Then) returns (r: Option<seq<Token>>)
    requires ValidCommSelect(a.communityRemove)
    ensures r == PrintedBody(TranslateThen(b, a))
  {
    PrintBodyOne(Reject);
    PrintBodyOne(Accept);
    hide PrintBody, TranslateEdits;
    var edits := RenderEdits(b, a);
    if edits.None? { return None; }
    ghost var ss := TranslateEdits(b, a).value;
    match a.action
    case Deny =>
      PrintBodyConcat(ss, [Reject]);
      return Some(edits.value + [KReject, Semi]);
    case Permit =>
      PrintBodyConcat(ss, [Accept]);
      return Some(edits.value + [KAccept, Semi]);
    case CallNext =>
      assert ss + [] == ss;
      return edits;
    case CallRule(_) =>
      return None;
  }

  lemma PrintFourParts(p: seq<Simple>, d: seq<Simple>, m: seq<Simple>, t: seq<Simple>)
    ensures PrintBody(p + d + m + t) == PrintBody(p) + PrintBody(d) + PrintBody(m) + PrintBody(t)
  {
    hide PrintBody;
    PrintBodyConcat(p, d);
    PrintBodyConcat(p + d, m);
    PrintBodyConcat(p + d + m, t);
  }

  // ---------- Terms ----------

  function PrintedStmts(ss: Option<seq<Stmt>>): Option<seq<Token>> {
    if ss.None? then None else Some(PrintStmts(ss.value))
  }

  method RenderTerm(b: Bgp, t: Term) returns (r: Option<seq<Token>>)
    requires ValidTerm(t)
    ensures r == PrintedStmts(TranslateTerm(b, t))
  {
    var conds := RenderConditions(b, t.cond);
    if conds.None? { return None; }
    ghost var ts := Checks(b, t.cond).value;
    if conds.value == [] {
      NonEmptyText(t.cond.matchAny, ts);
      return Some([]);
    }
    var body := RenderThen(b, t.act);
    if body.None? { return None; }
    ghost var stmt := If(CondOf(t.cond.matchAny, ts), TranslateThen(b, t.act).value);
    assert PrintStmts([stmt]) == PrintStmt(stmt) + PrintStmts([]) == PrintStmt(stmt);
    hide Checks, TranslateThen, PrintBody, PrintCond, CondOf;
    return Some([KIf, LParen] + conds.value + [RParen, KThen, LBrace] + body.value + [RBrace]);
  }

  lemma NonEmptyText(any: bool, ts: seq<Test>)
    ensures JoinedText(any, ts) == [] ==> ts == []
  {
    if ts != [] {
      var n := |ts| - 1;
      assert ts == ts[..n] + [ts[n]];
      JoinedTextGrows(any, ts[..n], [ts[n]]);
    }
  }

  method RenderTerms(b: Bgp, terms: seq<Term>) returns (r: Option<seq<Token>>)
    requires forall i :: 0 <= i < |terms| ==> ValidTerm(terms[i])
    ensures r == PrintedStmts(TranslateTerms(b, terms))
  {
    var out := [];
    for i := 0 to |terms|
      invariant TranslateTerms(b, terms[..i]).Some? && out == PrintStmts(TranslateTerms(b, terms[..i]).value)
    {
      TermsSnoc(b, terms, i);
      var term := RenderTerm(b, terms[i]);
      if term.None? {
        TermsFailForGood(b, terms, i);
        return None;
      }
      PrintStmtsConcat(TranslateTerms(b, terms[..i]).value, TranslateTerm(b, terms[i]).value);
      out := out + term.value;
    }
    assert terms[..|terms|] == terms;
    return Some(out);
  }

  lemma {:induction false} TermsSnoc(b: Bgp, terms: seq<Term>, i: nat)
    requires i < |terms|
    ensures TranslateTerms(b, terms[..i + 1]) == Join(TranslateTerms(b, terms[..i]), TranslateTerm(b, terms[i]))
    decreases i
  {
    hide TranslateTerm;
    if i == 0 {
      var first := TranslateTerm(b, terms[0]);
      assert terms[..1][1..] == [] && first.Some? ==> first.value + [] == [] + first.value;
    } else {
      assert terms[..i + 1][1..] == terms[1..][..i];
      assert terms[..i][1..] == terms[1..][..i - 1];
      TermsSnoc(b, terms[1..], i - 1);
      var first, rest, last := TranslateTerm(b, terms[0]), TranslateTerms(b, terms[..i][1..]),
          TranslateTerm(b, terms[i]);
      if first.Some? && rest.Some? && last.Some? {
        RightNested(first.value, rest.value, last.value);
      }
    }
  }

  lemma {:induction false} TermsFailForGood(b: Bgp, terms: seq<Term>, i: nat)
    requires i < |terms| && TranslateTerm(b, terms[i]).None?
    ensures TranslateTerms(b, terms).None?
    decreases i
  {
    if i > 0 {
      TermsFailForGood(b, terms[1..], i - 1);
    }
  }

  // ---------- Sections ----------

  class BirdConfigConverter {
    var taken: map<string, Section>

    constructor () {
      taken := map[];
    }

    ghost predicate Holds(names: seq<string>) reads this {
      taken.Keys == NameSet(names) && Distinct(names)
    }

    /** Takes a name for a section unless some section has taken it before. */
    method TakeName(name: string, section: Section, ghost used: seq<string>) returns (ok: bool)
      requires Holds(used)
      modifies this
      ensures ok <==> Distinct(used + [name])
      ensures ok ==> Holds(used + [name])
    {
      NextName(used, name);
      if name in taken {
        return false;
      }
      taken := taken[name := section];
      return true;
    }

    method RenderAsPathListSection(b: Bgp, ghost used: seq<string>) returns (r: Option<seq<Token>>)
      requires Holds(used)
      requires forall i :: 0 <= i < |b.asPathLists| ==> |b.asPathLists[i].value| > 0
      modifies this
      ensures r.Some? <==> Distinct(used + Names(b.asPathLists))
      ensures r.Some? ==> Holds(used + Names(b.asPathLists)) && r.value == Print(AsnDecls(b.asPathLists))
    {
      hide AsnDecls, NameSet, Names, Distinct, Print, PrintDecl;
      var lists := b.asPathLists;
      NothingYet(used, lists);
      NothingPrinted();
      var out := [];
      for i := 0 to |lists|
        invariant Holds(used + Names(lists[..i]))
        invariant out == Print(AsnDecls(lists[..i]))
      {
        NamesUpTo(used, lists, i);
        var ok := TakeName(lists[i].name, AsPathLists, used + Names(lists[..i]));
        if !ok { return None; }
        var definition := RenderAsns(lists[i]);
        out := out + definition;
        AsnDeclsSnoc(lists, i);
      }
      assert lists[..|lists|] == lists;
      return Some(out);
    }

    /** The standard, extended and large community sections differ in their heading only. */
    method RenderCommunityListSection(lists: seq<Named<seq<Community>>>, section: Section, ghost used: seq<string>)
      returns (r: Option<seq<Token>>)
      requires Holds(used)
      requires forall i :: 0 <= i < |lists| ==> ValidCommunities(lists[i].value)
      modifies this
      ensures r.Some? <==> Distinct(used + Names(lists))
      ensures r.Some? ==> Holds(used + Names(lists)) && r.value == Print(CommDecls(lists))
    {
      hide CommDecls, NameSet, Names, Distinct, Print, PrintDecl;
      NothingYet(used, lists);
      NothingPrinted();
      var out := [];
      for i := 0 to |lists|
        invariant Holds(used + Names(lists[..i]))
        invariant out == Print(CommDecls(lists[..i]))
      {
        NamesUpTo(used, lists, i);
        var ok := TakeName(lists[i].name, section, used + Names(lists[..i]));
        if !ok { return None; }
        var definition := RenderCommunities(lists[i]);
        out := out + definition;
        CommDeclsSnoc(lists, i);
      }
      assert lists[..|lists|] == lists;
      return Some(out);
    }

    method RenderPrefixListSection(lists: seq<Named<seq<PrefixEntry>>>, max: nat,
        section: Section, ghost used: seq<string>)
      returns (r: Option<seq<Token>>)
      requires Holds(used)
      modifies this
      ensures r.Some? <==> Distinct(used + Names(lists)) && NetDecls(lists, max).Some?
      ensures r.Some? ==> Holds(used + Names(lists)) && r.value == Print(NetDecls(lists, max).value)
    {
      hide NetDecls, TranslateNets, NameSet, Names, Distinct, Print, PrintDecl;
      NothingYet(used, lists);
      NoNetDecls(max);
      var stream := new TokenStream();
      for i := 0 to |lists|
        invariant fresh(stream) && stream.AtEnd()
        invariant Holds(used + Names(lists[..i]))
        invariant NetDecls(lists[..i], max).Some? && stream.text == Print(NetDecls(lists[..i], max).value)
      {
        NamesUpTo(used, lists, i);
        NetDeclsSnoc(lists, max, i);
        var ok := TakeName(lists[i].name, section, used + Names(lists[..i]));
        if !ok { return None; }
        ok := RenderPrefixList(stream, lists[i], max);
        if !ok { return None; }
        PrintSnoc(NetDecls(lists[..i], max).value, TranslateNets(lists[i], max).value);
      }
      assert lists[..|lists|] == lists;
      return Some(stream.text);
    }

    method RenderPolicyListSection(b: Bgp, ghost used: seq<string>) returns (r: Option<seq<Token>>)
      requires Holds(used)
      requires forall i :: 0 <= i < |b.policies| ==> ValidPolicy(b.policies[i].value)
      modifies this
      ensures r.Some? <==> Distinct(used + Names(b.policies)) && FilterDecls(b, b.policies).Some?
      ensures r.Some? ==> Holds(used + Names(b.policies)) && r.value == Print(FilterDecls(b, b.policies).value)
    {
      hide FilterDecls, TranslatePolicy, NameSet, Names, Distinct, Print, PrintDecl;
      var policies := b.policies;
      NothingYet(used, policies);
      NoFilterDecls(b);
      var out := [];
      for i := 0 to |policies|
        invariant Holds(used + Names(policies[..i]))
        invariant FilterDecls(b, policies[..i]).Some? && out == Print(FilterDecls(b, policies[..i]).value)
      {
        NamesUpTo(used, policies, i);
        FilterDeclsSnoc(b, policies, i);
        var ok := TakeName(policies[i].name, Policies, used + Names(policies[..i]));
        if !ok { return None; }
        var policy := RenderPolicy(b, policies[i]);
        if policy.None? { return None; }
        out := out + policy.value;
        PrintSnoc(FilterDecls(b, policies[..i]).value, TranslatePolicy(b, policies[i]).value);
      }
      assert policies[..|policies|] == policies;
      return Some(out);
    }

    /** The BGP part; used is everything the sections before have taken. */
    method RenderLists(b: Bgp) returns (r: Option<seq<Token>>)
      requires Valid(b) && Holds([])
      modifies this
      ensures r.Some? <==> Distinct(ListNames(b)) && ListDecls(b).Some?
      ensures r.Some? ==> Holds(ListNames(b)) && r.value == Print(ListDecls(b).value)
    {
      ghost var names1 := Names(b.asPathLists);
      ghost var names2 := names1 + Names(b.communityLists);
      ghost var names3 := names2 + Names(b.extCommunityLists);
      ghost var names4 := names3 + Names(b.largeCommunityLists);
      ghost var names5 := names4 + Names(b.prefixV4Lists);
      SectionPrefixes(b);
      assert [] + names1 == names1;
      PrintedLists(b);
      hide Distinct, NameSet, Print, ListDecls, NetDecls, AsnDecls, CommDecls;
      var asPaths := RenderAsPathListSection(b, []);
      if asPaths.None? { return None; }
      var comms := RenderCommunityListSection(b.communityLists, CommunityLists, names1);
      if comms.None? { return None; }
      var exts := RenderCommunityListSection(b.extCommunityLists, ExtCommunityLists, names2);
      if exts.None? { return None; }
      var larges := RenderCommunityListSection(b.largeCommunityLists, LargeCommunityLists, names3);
      if larges.None? { return None; }
      var v4 := RenderPrefixListSection(b.prefixV4Lists, 32, PrefixV4Lists, names4);
      if v4.None? { return None; }
      var v6 := RenderPrefixListSection(b.prefixV6Lists, 128, PrefixV6Lists, names5);
      if v6.None? { return None; }
      return Some(asPaths.value + comms.value + exts.value + larges.value + v4.value + v6.value);
    }

    /**
     Independent of what an earlier conversion left in the table of names: the table is
     cleared first.  Without sessions the lists and filters are rendered and thrown away.
     */
    method Convert(b: Bgp) returns (r: Option<seq<Token>>)
      requires Valid(b)
      modifies this
      ensures r == Printed(Translate(b))
    {
      taken := map[];
      PrintedParts(b);
      hide Distinct, NameSet, Print, Translate, ListDecls, FilterDecls, SessionDecls;
      var lists := RenderLists(b);
      if lists.None? { return None; }
      var filters := RenderPolicyListSection(b, ListNames(b));
      if filters.None? { return None; }
      if b.sessions.None? {
        return Some([]);
      }
      var sessions := RenderSessions(b, b.sessions.value);
      if sessions.None? { return None; }
      return Some(lists.value + filters.value + sessions.value);
    }
  }

  /** A name taken twice among the first sections is taken twice among all of them. */
  lemma SectionPrefixes(b: Bgp)
    ensures var names1 := Names(b.asPathLists);
            var names2 := names1 + Names(b.communityLists);
            var names3 := names2 + Names(b.extCommunityLists);
            var names4 := names3 + Names(b.largeCommunityLists);
            var names5 := names4 + Names(b.prefixV4Lists);
            && ListNames(b) == names5 + Names(b.prefixV6Lists)
            && (Distinct(ListNames(b)) ==> Distinct(names5)) && (Distinct(names5) ==> Distinct(names4))
            && (Distinct(names4) ==> Distinct(names3)) && (Distinct(names3) ==> Distinct(names2))
            && (Distinct(names2) ==> Distinct(names1))
  {
    var names1 := Names(b.asPathLists);
    var names2 := names1 + Names(b.communityLists);
    var names3 := names2 + Names(b.extCommunityLists);
    var names4 := names3 + Names(b.largeCommunityLists);
    var names5 := names4 + Names(b.prefixV4Lists);
    DistinctIfPrefix(names1, Names(b.communityLists));
    DistinctIfPrefix(names2, Names(b.extCommunityLists));
    DistinctIfPrefix(names3, Names(b.largeCommunityLists));
    DistinctIfPrefix(names4, Names(b.prefixV4Lists));
    DistinctIfPrefix(names5, Names(b.prefixV6Lists));
    hide Distinct;
  }

  lemma DistinctIfPrefix(names: seq<string>, more: seq<string>)
    ensures Distinct(names + more) ==> Distinct(names)
  {
    if Distinct(names + more) {
      DistinctPrefix(names, more);
    }
  }

  lemma PrintedLists(b: Bgp)
    ensures ListDecls(b).Some? <==> NetDecls(b.prefixV4Lists, 32).Some? && NetDecls(b.prefixV6Lists, 128).Some?
    ensures ListDecls(b).Some? ==>
              Print(ListDecls(b).value) ==
              Print(AsnDecls(b.asPathLists)) + Print(CommDecls(b.communityLists))
                  + Print(CommDecls(b.extCommunityLists))
              + Print(CommDecls(b.largeCommunityLists))
              + Print(NetDecls(b.prefixV4Lists, 32).value) + Print(NetDecls(b.prefixV6Lists, 128).value)
  {
    var a, c, e, l := AsnDecls(b.asPathLists), CommDecls(b.communityLists),
        CommDecls(b.extCommunityLists), CommDecls(b.largeCommunityLists);
    hide Print, AsnDecls, CommDecls, NetDecls;
    if ListDecls(b).Some? {
      PrintConcat(a, c);
      PrintConcat(a + c, e);
      PrintConcat(a + c + e, l);
      PrintConcat(a + c + e + l, NetDecls(b.prefixV4Lists, 32).value);
      PrintConcat(a + c + e + l + NetDecls(b.prefixV4Lists, 32).value, NetDecls(b.prefixV6Lists, 128).value);
    }
  }

  lemma NothingYet<T>(used: seq<string>, lists: seq<Named<T>>)
    ensures used + Names(lists[..0]) == used && lists[..0] == [] && lists[..|lists|] == lists
  {
  }

  lemma NothingPrinted()
    ensures Print(AsnDecls([])) == [] && Print(CommDecls([])) == []
  {
  }

  lemma NothingPrintedAtAll()
    ensures Print([]) == []
  {
  }

  lemma NoNetDecls(max: nat)
    ensures NetDecls([], max) == Some([]) && Print([]) == []
  {
  }

  lemma NoFilterDecls(b: Bgp)
    ensures FilterDecls(b, []) == Some([]) && Print([]) == []
  {
  }

  lemma PrintedParts(b: Bgp)
    ensures Distinct(AllNames(b)) ==> Distinct(ListNames(b))
    ensures Printed(Translate(b)) ==
            if !Distinct(AllNames(b)) || ListDecls(b).None? || FilterDecls(b, b.policies).None? then None
            else if b.sessions.None? then Some([])
            else if SessionDecls(b, b.sessions.value).None? then None
            else Some(Print(ListDecls(b).value) + Print(FilterDecls(b, b.policies).value)
                      + Print(SessionDecls(b, b.sessions.value).value))
  {
    hide Print, ListDecls, FilterDecls, SessionDecls, Distinct, ListNames, Names;
    DistinctIfPrefix(ListNames(b), Names(b.policies));
    NothingPrintedAtAll();
    if ListDecls(b).Some? && FilterDecls(b, b.policies).Some? {
      PrintConcat(ListDecls(b).value, FilterDecls(b, b.policies).value);
      if b.sessions.Some? && SessionDecls(b, b.sessions.value).Some? {
        PrintConcat(ListDecls(b).value + FilterDecls(b, b.policies).value, SessionDecls(b, b.sessions.value).value);
      }
    }
  }

  lemma AsnDeclsSnoc(lists: seq<Named<seq<nat>>>, i: nat)
    requires i < |lists|
    ensures Print(AsnDecls(lists[..i + 1])) == Print(AsnDecls(lists[..i]))
            + PrintDecl(DefineAsns(lists[i].name, lists[i].value))
  {
    assert AsnDecls(lists[..i + 1]) == AsnDecls(lists[..i]) + [DefineAsns(lists[i].name, lists[i].value)];
    hide PrintDecl;
    PrintSnoc(AsnDecls(lists[..i]), DefineAsns(lists[i].name, lists[i].value));
  }

  lemma CommDeclsSnoc(lists: seq<Named<seq<Community>>>, i: nat)
    requires i < |lists|
    ensures Print(CommDecls(lists[..i + 1])) == Print(CommDecls(lists[..i]))
            + PrintDecl(DefineComms(lists[i].name, lists[i].value))
  {
    assert CommDecls(lists[..i + 1]) == CommDecls(lists[..i]) + [DefineComms(lists[i].name, lists[i].value)];
    hide PrintDecl;
    PrintSnoc(CommDecls(lists[..i]), DefineComms(lists[i].name, lists[i].value));
  }

  method RenderCommunities(list: Named<seq<Community>>) returns (out: seq<Token>)
    requires ValidCommunities(list.value)
    ensures out == PrintDecl(DefineComms(list.name, list.value))
  {
    var value := RenderCommsSeparatorFirst(list.value);
    if |list.value| > 1 {
      value := [LBracket] + value + [RBracket];
    }
    out := [KDefine, Name(list.name), Equals] + (value + [Semi]);
  }

  /** One entry with the bounds of its range and a comma. */
  method RenderEntry(stream: TokenStream, e: PrefixEntry, max: nat) returns (ok: bool)
    requires stream.AtEnd()
    modifies stream
    ensures ok <==> TranslateEntry(e, max).Some?
    ensures ok ==> stream.AtEnd()
    ensures ok ==> stream.text == old(stream.text) + PrintEntry(TranslateEntry(e, max).value) + [Comma]
  {
    ghost var start := stream.text;
    stream.Write([Nl, Net(e.pfx)]);
    if e.ge.Some? && e.le.Some? {
      if e.pfx.len > e.ge.value || e.pfx.len > e.le.value || e.ge.value > e.le.value {
        return false;
      }
      stream.Write([LBrace, Num(e.ge.value), Comma, Num(e.le.value), RBrace]);
    } else if e.ge.Some? {
      if e.pfx.len > e.ge.value {
        return false;
      }
      stream.Write([LBrace, Num(e.ge.value), Comma, Num(max), RBrace]);
    } else if e.le.Some? {
      if e.pfx.len > e.le.value {
        return false;
      }
      stream.Write([LBrace, Num(e.pfx.len), Comma, Num(e.le.value), RBrace]);
    }
    assert stream.text == start + PrintEntry(TranslateEntry(e, max).value);
    stream.Write([Comma]);
    return true;
  }

  /**
   One prefix list.  A comma follows every entry; when one stands last, the put position
   moves back over it and the line break overwrites it.
   */
  method RenderPrefixList(stream: TokenStream, list: Named<seq<PrefixEntry>>, max: nat) returns (ok: bool)
    requires stream.AtEnd()
    modifies stream
    ensures ok <==> TranslateNets(list, max).Some?
    ensures ok ==> stream.AtEnd() && stream.text == old(stream.text) + PrintDecl(TranslateNets(list, max).value)
  {
    hide TranslateEntries, WithCommas, PrintEntries, PrintDecl;
    stream.Write([KDefine, Name(list.name), Equals, LBracket]);
    ghost var start := stream.text;
    ok := RenderEntries(stream, list.value, max);
    if ok {
      ghost var entries := TranslateEntries(list.value, max).value;
      ClosePrefixList(stream, start, entries);
      PrefixListText(old(stream.text), list.name, entries);
    }
  }

  method RenderEntries(stream: TokenStream, es: seq<PrefixEntry>, max: nat) returns (ok: bool)
    requires stream.AtEnd()
    modifies stream
    ensures ok <==> TranslateEntries(es, max).Some?
    ensures ok ==> stream.AtEnd() && stream.text == old(stream.text) + WithCommas(TranslateEntries(es, max).value)
  {
    ghost var start := stream.text;
    assert TranslateEntries(es[..0], max) == Some([]) && WithCommas([]) == [];
    hide TranslateEntry, TranslateEntries, WithCommas, PrintEntry;
    for j := 0 to |es|
      invariant stream.AtEnd()
      invariant TranslateEntries(es[..j], max).Some?
      invariant stream.text == start + WithCommas(TranslateEntries(es[..j], max).value)
    {
      EntriesSnoc(es, max, j);
      ok := RenderEntry(stream, es[j], max);
      if !ok { return; }
      ghost var done, next := TranslateEntries(es[..j], max).value, TranslateEntry(es[j], max).value;
      WithCommasSnoc(done, next);
      RightNested(start, WithCommas(done), PrintEntry(next));
      RightNested(start, WithCommas(done) + PrintEntry(next), [Comma]);
    }
    assert es[..|es|] == es;
    return true;
  }

  lemma PrefixListText(before: seq<Token>, name: string, entries: seq<Entry>)
    ensures before + [KDefine, Name(name), Equals, LBracket] + (PrintEntries(entries) + [Nl, RBracket, Semi])
            == before + PrintDecl(DefineNets(name, entries))
  {
    hide PrintEntries;
  }

  method ClosePrefixList(stream: TokenStream, ghost start: seq<Token>, ghost entries: seq<Entry>)
    requires stream.AtEnd() && stream.text == start + WithCommas(entries)
    requires |start| > 0 && start[|start| - 1] == LBracket
    modifies stream
    ensures stream.AtEnd() && stream.text == start + (PrintEntries(entries) + [Nl, RBracket, Semi])
  {
    hide WithCommas, PrintEntries;
    if entries == [] {
      NoEntriesPrinted(start);
    } else {
      LastCommaIsExtra(entries);
      RightNested(start, PrintEntries(entries), [Comma]);
    }
    RightNested(start, PrintEntries(entries), [Nl, RBracket, Semi]);
    if stream.text[|stream.text| - 1] == Comma {
      stream.SeekBackOne();
    }
    stream.Write([Nl, RBracket, Semi]);
  }

  lemma NoEntriesPrinted(start: seq<Token>)
    ensures start + WithCommas([]) == start == start + PrintEntries([])
  {
  }

  lemma {:induction false} EntriesSnoc(es: seq<PrefixEntry>, max: nat, j: nat)
    requires j < |es|
    ensures TranslateEntries(es[..j + 1], max) ==
            match TranslateEntry(es[j], max) case None => None
                case Some(e) => Join(TranslateEntries(es[..j], max), Some([e]))
    ensures TranslateEntry(es[j], max).None? ==> TranslateEntries(es, max).None?
    decreases j
  {
    hide TranslateEntry;
    if j == 0 {
      var first := TranslateEntry(es[0], max);
      assert es[..1][1..] == [] && first.Some? ==> [first.value] + [] == [] + [first.value];
    } else {
      assert es[..j + 1][1..] == es[1..][..j];
      assert es[..j][1..] == es[1..][..j - 1];
      EntriesSnoc(es[1..], max, j - 1);
      var first, rest, last := TranslateEntry(es[0], max), TranslateEntries(es[..j][1..], max),
          TranslateEntry(es[j], max);
      if first.Some? && rest.Some? && last.Some? {
        RightNested([first.value], rest.value, [last.value]);
      }
    }
  }

  lemma FinalReject()
    ensures PrintStmts([Do(Reject)]) == [KReject, Semi]
  {
    assert PrintStmts([Do(Reject)]) == PrintStmt(Do(Reject)) + PrintStmts([]);
  }

  method RenderPolicy(b: Bgp, policy: Named<Policy>) returns (r: Option<seq<Token>>)
    requires ValidPolicy(policy.value)
    ensures r == match TranslatePolicy(b, policy) case None => None case Some(d) => Some(PrintDecl(d))
  {
    hide PrintStmts, TranslateTerms, ValidTerm;
    if policy.value.defaultAction.Some? {
      return None;
    }
    var terms := RenderTerms(b, policy.value.terms);
    if terms.None? { return None; }
    PrintStmtsConcat(TranslateTerms(b, policy.value.terms).value, [Do(Reject)]);
    FinalReject();
    return Some([KFilter, Name(policy.name), LBrace] + (terms.value + [KReject, Semi]) + [RBrace]);
  }

  lemma {:induction false} NetDeclsSnoc(lists: seq<Named<seq<PrefixEntry>>>, max: nat, i: nat)
    requires i < |lists|
    ensures NetDecls(lists[..i + 1], max) ==
            match TranslateNets(lists[i], max) case None => None
                case Some(d) => Join(NetDecls(lists[..i], max), Some([d]))
    ensures TranslateNets(lists[i], max).None? ==> NetDecls(lists, max).None?
    decreases i
  {
    hide TranslateNets;
    if i == 0 {
      var first := TranslateNets(lists[0], max);
      assert lists[..1][1..] == [] && first.Some? ==> [first.value] + [] == [] + [first.value];
    } else {
      assert lists[..i + 1][1..] == lists[1..][..i];
      assert lists[..i][1..] == lists[1..][..i - 1];
      NetDeclsSnoc(lists[1..], max, i - 1);
      var first, rest, last := TranslateNets(lists[0], max), NetDecls(lists[..i][1..], max),
          TranslateNets(lists[i], max);
      if first.Some? && rest.Some? && last.Some? {
        RightNested([first.value], rest.value, [last.value]);
      }
    }
  }

  lemma {:induction false} FilterDeclsSnoc(b: Bgp, policies: seq<Named<Policy>>, i: nat)
    requires i < |policies|
    ensures FilterDecls(b, policies[..i + 1]) ==
            match TranslatePolicy(b, policies[i]) case None => None
                case Some(d) => Join(FilterDecls(b, policies[..i]), Some([d]))
    ensures TranslatePolicy(b, policies[i]).None? ==> FilterDecls(b, policies).None?
    decreases i
  {
    hide TranslatePolicy;
    if i == 0 {
      var first := TranslatePolicy(b, policies[0]);
      assert policies[..1][1..] == [] && first.Some? ==> [first.value] + [] == [] + [first.value];
    } else {
      assert policies[..i + 1][1..] == policies[1..][..i];
      assert policies[..i][1..] == policies[1..][..i - 1];
      FilterDeclsSnoc(b, policies[1..], i - 1);
      var first, rest, last := TranslatePolicy(b, policies[0]), FilterDecls(b, policies[..i][1..]),
          TranslatePolicy(b, policies[i]);
      if first.Some? && rest.Some? && last.Some? {
        RightNested([first.value], rest.value, [last.value]);
      }
    }
  }

  method RenderAsns(list: Named<seq<nat>>) returns (out: seq<Token>)
    requires |list.value| > 0
    ensures out == PrintDecl(DefineAsns(list.name, list.value))
  {
    var asns := list.value;
    var nums := [];
    assert asns[0..] == asns;
    for i := 0 to |asns| - 1
      invariant PrintNums(asns) == nums + PrintNums(asns[i..])
    {
      assert asns[i..][1..] == asns[i + 1..];
      nums := nums + [Num(asns[i]), Comma];
    }
    assert asns[|asns| - 1..] == [asns[|asns| - 1]];
    nums := nums + [Num(asns[|asns| - 1])];
    out := [KDefine, Name(list.name), Equals] + ([LBracket] + nums + [RBracket, Semi]);
  }

  // ---------- Sessions ----------

  method RenderPolicyUse(b: Bgp, direction: Token, policy: Option<string>) returns (r: Option<seq<Token>>)
    ensures r == if KnownPolicy(b, policy) then Some(PrintUse(direction, policy)) else None
  {
    if policy.None? {
      return Some([]);
    }
    if Find(b.policies, policy.value).None? {
      return None;
    }
    return Some([direction, KFilter, Name(policy.value), Semi]);
  }

  method RenderChannel(b: Bgp, family: Token, c: Option<Channel>) returns (r: Option<seq<Token>>)
    ensures r == if KnownChannel(b, c) then Some(PrintChannel(family, c)) else None
  {
    if c.None? {
      return Some([]);
    }
    var imports := RenderPolicyUse(b, KImport, c.value.policyIn);
    if imports.None? { return None; }
    var exports := RenderPolicyUse(b, KExport, c.value.policyOut);
    if exports.None? { return None; }
    return Some([family, LBrace] + imports.value + exports.value + [RBrace, Semi]);
  }

  method RenderSession(b: Bgp, s: Session) returns (r: Option<seq<Token>>)
    ensures r == match TranslateSession(b, s) case None => None case Some(d) => Some(PrintDecl(d))
  {
    var v4 := RenderChannel(b, KIpv4, s.ipv4);
    if v4.None? { return None; }
    var v6 := RenderChannel(b, KIpv6, s.ipv6);
    if v6.None? { return None; }
    if v4.value + v6.value == [] {
      assert s.ipv4.None? && s.ipv6.None? by {
        assert v4.value == [] && v6.value == [];
      }
      return None;
    }
    return Some([KProtocol, KBgp, Name(s.name), LBrace] + v4.value + v6.value + [RBrace]);
  }

  method RenderSessions(b: Bgp, sessions: seq<Session>) returns (r: Option<seq<Token>>)
    ensures r == Printed(SessionDecls(b, sessions))
  {
    var out := [];
    assert Printed(SessionDecls(b, sessions[..0])) == Some([]);
    hide TranslateSession, PrintDecl;
    for i := 0 to |sessions|
      invariant SessionDecls(b, sessions[..i]).Some? && out == Print(SessionDecls(b, sessions[..i]).value)
    {
      SessionDeclsSnoc(b, sessions, i);
      var session := RenderSession(b, sessions[i]);
      if session.None? { return None; }
      out := out + session.value;
      PrintSnoc(SessionDecls(b, sessions[..i]).value, TranslateSession(b, sessions[i]).value);
    }
    assert sessions[..|sessions|] == sessions;
    return Some(out);
  }

  lemma {:induction false} SessionDeclsSnoc(b: Bgp, sessions: seq<Session>, i: nat)
    requires i < |sessions|
    ensures SessionDecls(b, sessions[..i + 1]) ==
            match TranslateSession(b, sessions[i]) case None => None
                case Some(d) => Join(SessionDecls(b, sessions[..i]), Some([d]))
    ensures TranslateSession(b, sessions[i]).None? ==> SessionDecls(b, sessions).None?
    decreases i
  {
    hide TranslateSession;
    if i == 0 {
      var first := TranslateSession(b, sessions[0]);
      assert sessions[..1][1..] == [] && first.Some? ==> [first.value] + [] == [] + [first.value];
    } else {
      assert sessions[..i + 1][1..] == sessions[1..][..i];
      assert sessions[..i][1..] == sessions[1..][..i - 1];
      SessionDeclsSnoc(b, sessions[1..], i - 1);
      var first, rest, last := TranslateSession(b, sessions[0]), SessionDecls(b, sessions[..i][1..]),
          TranslateSession(b, sessions[i]);
      if first.Some? && rest.Some? && last.Some? {
        RightNested([first.value], rest.value, [last.value]);
      }
    }
  }
}

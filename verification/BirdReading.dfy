/** What a reader of the converter's output gets back. */
module BirdReading {
  import opened Options
  import opened BirdSource
  import opened BirdTarget
  import opened BirdTranslate
  import opened BirdParser
  import BirdMeaning

  /** Some condition of a kind that has a renderer is present. */
  predicate HasPrintedCondition(m: IfMatch) {
    || m.asPathEq.Some? || m.asPathIn.Some? || m.communityEq.Some? || m.communityIn.Some?
    || m.extCommunityEq.Some? || m.extCommunityIn.Some?
    || (m.netEq.Some? && m.netEq.value.entries != []) || m.netTypeEq.Some? || m.sourceEq.Some?
  }

  predicate RemovesOne(a: Then) {
    a.communityRemove.Some? && a.communityRemove.value.CommInline? && |a.communityRemove.value.cs| == 1
  }

  /** The term is dropped, or it does not remove exactly one community given in place. */
  predicate ReadableTerm(t: Term) {
    HasPrintedCondition(t.cond) ==> !RemovesOne(t.act)
  }

  predicate AllReadable(terms: seq<Term>) {
    forall i :: 0 <= i < |terms| ==> ReadableTerm(terms[i])
  }

  predicate Readable(b: Bgp) {
    forall k :: 0 <= k < |b.policies| ==> AllReadable(b.policies[k].value.terms)
  }

  // ---------- Which terms are printed ----------

  lemma {:induction false} PrintedUpTo(b: Bgp, m: IfMatch, k: nat)
    requires k <= CHECKS && ChecksUpTo(b, m, k).Some?
    ensures ChecksUpTo(b, m, k).value == [] <==> forall j :: 0 <= j < k ==> CheckAt(b, m, j) == Some([])
  {
    hide CheckAt;
    if k > 0 {
      PrintedUpTo(b, m, k - 1);
    }
  }

  lemma PrintedWhenPresent(b: Bgp, m: IfMatch)
    requires Checks(b, m).Some?
    ensures Checks(b, m).value == [] <==> !HasPrintedCondition(m)
  {
    PrintedUpTo(b, m, CHECKS);
    hide ChecksUpTo;
    if HasPrintedCondition(m) {
      if Checks(b, m).value == [] {
        NothingPresent(b, m);
        assert false;
      }
    } else {
      forall j | 0 <= j < CHECKS ensures CheckAt(b, m, j) == Some([]) {
      }
    }
  }

  lemma NothingPresent(b: Bgp, m: IfMatch)
    requires forall j :: 0 <= j < CHECKS ==> CheckAt(b, m, j) == Some([])
    ensures !HasPrintedCondition(m)
  {
    assert CheckAt(b, m, 0) == Some([]) && CheckAt(b, m, 1) == Some([]) && CheckAt(b, m, 2) == Some([]);
    assert CheckAt(b, m, 3) == Some([]) && CheckAt(b, m, 4) == Some([]) && CheckAt(b, m, 5) == Some([]);
    assert CheckAt(b, m, 6) == Some([]) && CheckAt(b, m, 8) == Some([]) && CheckAt(b, m, 9) == Some([]);
  }

  // ---------- The output is in the printable syntax ----------

  lemma {:induction false} CondWellFormed(any: bool, ts: seq<Test>)
    requires |ts| > 0 && forall i :: 0 <= i < |ts| ==> WellFormedTest(ts[i])
    ensures WellFormedCond(CondOf(any, ts))
    decreases |ts|
  {
    var n := |ts| - 1;
    if n > 0 {
      CondWellFormed(any, ts[..n]);
    }
  }

  lemma {:induction false} ChecksWellFormed(b: Bgp, t: Term, k: nat)
    requires ValidTerm(t) && k <= CHECKS && ChecksUpTo(b, t.cond, k).Some?
    ensures forall i :: 0 <= i < |ChecksUpTo(b, t.cond, k).value| ==> WellFormedTest(ChecksUpTo(b, t.cond, k).value[i])
  {
    if k > 0 {
      ChecksWellFormed(b, t, k - 1);
    }
  }

  lemma ThenWellFormed(b: Bgp, t: Term, s: Simple)
    requires ValidTerm(t) && TranslateThen(b, t.act).Some? && s in TranslateThen(b, t.act).value
    ensures WellFormedSimple(s)
    ensures !ClosedSimple(s) ==> RemovesOne(t.act)
  {
    ThenParts(b, t.act, s);
    hide TranslateThen;
  }

  lemma {:induction false} AllClosed(ss: seq<Simple>)
    ensures ClosedBody(ss) <==> forall i :: 0 <= i < |ss| ==> ClosedSimple(ss[i])
    decreases |ss|
  {
    if ss != [] {
      AllClosed(ss[1..]);
      assert forall i :: 1 <= i < |ss| ==> ss[i] == ss[1..][i - 1];
    }
  }

  lemma ThenClosed(b: Bgp, t: Term)
    requires ValidTerm(t) && TranslateThen(b, t.act).Some?
    ensures ClosedBody(TranslateThen(b, t.act).value) <==> !RemovesOne(t.act)
  {
    var body := TranslateThen(b, t.act).value;
    AllClosed(body);
    if RemovesOne(t.act) {
      var s := DeleteComm(Literal(t.act.communityRemove.value.cs));
      assert s in TranslateEdits(b, t.act).value;
      assert s in body && !ClosedSimple(s);
    } else {
      forall i | 0 <= i < |body| ensures ClosedSimple(body[i]) {
        ThenWellFormed(b, t, body[i]);
      }
    }
  }

  lemma TermReading(b: Bgp, t: Term)
    requires ValidTerm(t) && TranslateTerm(b, t).Some?
    ensures var ss := TranslateTerm(b, t).value;
            && (forall i :: 0 <= i < |ss| ==> WellFormedStmt(ss[i]))
            && (ClosedStmts(ss) <==> ReadableTerm(t))
  {
    var ts := Checks(b, t.cond).value;
    PrintedWhenPresent(b, t.cond);
    if ts != [] {
      ChecksWellFormed(b, t, CHECKS);
      CondWellFormed(t.cond.matchAny, ts);
      ThenClosed(b, t);
      var body := TranslateThen(b, t.act).value;
      forall i | 0 <= i < |body| ensures WellFormedSimple(body[i]) {
        ThenWellFormed(b, t, body[i]);
      }
      hide Checks, TranslateThen, HasPrintedCondition, ValidTerm, ClosedBody;
      assert TranslateTerm(b, t).value == [If(CondOf(t.cond.matchAny, ts), body)];
    }
  }

  lemma {:induction false} ClosedInParts(a: seq<Stmt>, c: seq<Stmt>)
    ensures ClosedStmts(a + c) <==> ClosedStmts(a) && ClosedStmts(c)
    decreases |a|
  {
    hide ClosedStmt;
    if a == [] {
      assert a + c == c;
    } else {
      assert (a + c)[1..] == a[1..] + c;
      ClosedInParts(a[1..], c);
    }
  }

  lemma {:induction false} TermsReading(b: Bgp, terms: seq<Term>)
    requires forall i :: 0 <= i < |terms| ==> ValidTerm(terms[i])
    requires TranslateTerms(b, terms).Some?
    ensures var ss := TranslateTerms(b, terms).value;
            && (forall i :: 0 <= i < |ss| ==> WellFormedStmt(ss[i]))
            && (ClosedStmts(ss) <==> AllReadable(terms))
    decreases |terms|
  {
    hide ReadableTerm, ValidTerm, WellFormedStmt, TranslateTerm;
    if terms != [] {
      TermReading(b, terms[0]);
      TermsReading(b, terms[1..]);
      ClosedInParts(TranslateTerm(b, terms[0]).value, TranslateTerms(b, terms[1..]).value);
      hide ClosedStmts;
      assert forall i :: 1 <= i < |terms| ==> terms[i] == terms[1..][i - 1];
    }
  }

  lemma PolicyReading(b: Bgp, p: Named<Policy>)
    requires ValidPolicy(p.value) && TranslatePolicy(b, p).Some?
    ensures var d := TranslatePolicy(b, p).value;
            && d.Filter? && WellFormedDecl(d) && (ClosedStmts(d.stmts) <==> AllReadable(p.value.terms))
  {
    var ss := TranslateTerms(b, p.value.terms).value;
    TermsReading(b, p.value.terms);
    ClosedInParts(ss, [Do(Reject)]);
    assert ClosedStmts([Do(Reject)]);
    hide ClosedStmts, TranslateTerms;
  }

  // ---------- Whole outputs ----------

  lemma {:induction false} ClosedDecls(ds: seq<Decl>)
    ensures Closed(ds) <==> forall i :: 0 <= i < |ds| && ds[i].Filter? ==> ClosedStmts(ds[i].stmts)
    decreases |ds|
  {
    hide ClosedStmts;
    if ds != [] {
      ClosedDecls(ds[1..]);
      assert forall i :: 1 <= i < |ds| ==> ds[i] == ds[1..][i - 1];
    }
  }

  lemma ListReading(b: Bgp, j: nat)
    requires Valid(b) && ListDecls(b).Some? && j < |ListDecls(b).value|
    ensures var d := ListDecls(b).value[j];
            !d.Filter? && WellFormedDecl(d)
  {
    var d := ListDecls(b).value[j];
    var a, c, e, l := AsnDecls(b.asPathLists), CommDecls(b.communityLists),
        CommDecls(b.extCommunityLists), CommDecls(b.largeCommunityLists);
    var v4, v6 := NetDecls(b.prefixV4Lists, 32).value, NetDecls(b.prefixV6Lists, 128).value;
    if d in a {
    } else if d in v4 {
      var i :| 0 <= i < |v4| && v4[i] == d;
      assert TranslateNets(b.prefixV4Lists[i], 32) == Some(d);
    } else if d in v6 {
      var i :| 0 <= i < |v6| && v6[i] == d;
      assert TranslateNets(b.prefixV6Lists[i], 128) == Some(d);
    } else {
      assert d in c + e + l;
    }
  }

  /** The declarations of an output are printable, and closed exactly when the policies are readable. */
  lemma OutputReading(b: Bgp)
    requires Valid(b) && Translate(b).Some? && b.sessions.Some?
    ensures WellFormed(Translate(b).value)
    ensures Closed(Translate(b).value) <==> Readable(b)
  {
    var lists, filters, sessions := ListDecls(b).value, FilterDecls(b, b.policies).value,
        SessionDecls(b, b.sessions.value).value;
    var ds := Translate(b).value;
    assert ds == lists + filters + sessions;
    ClosedDecls(ds);
    forall i | 0 <= i < |lists| ensures !lists[i].Filter? && WellFormedDecl(lists[i]) {
      ListReading(b, i);
    }
    forall k | 0 <= k < |filters|
      ensures filters[k].Filter? && WellFormedDecl(filters[k])
      ensures ClosedStmts(filters[k].stmts) <==> AllReadable(b.policies[k].value.terms)
    {
      assert TranslatePolicy(b, b.policies[k]) == Some(filters[k]);
      PolicyReading(b, b.policies[k]);
    }
    forall i | 0 <= i < |sessions| ensures sessions[i].BgpSession? {
      assert TranslateSession(b, b.sessions.value[i]) == Some(sessions[i]);
    }
    hide Translate, ListDecls, FilterDecls, SessionDecls, WellFormedDecl, ClosedStmts, AllReadable, Valid, Closed;
    PartsReading(b, lists, filters, sessions);
  }

  lemma PartsReading(b: Bgp, lists: seq<Decl>, filters: seq<Decl>, sessions: seq<Decl>)
    requires |filters| == |b.policies|
    requires forall i :: 0 <= i < |lists| ==> !lists[i].Filter? && WellFormedDecl(lists[i])
    requires forall i :: 0 <= i < |sessions| ==> sessions[i].BgpSession?
    requires forall k :: 0 <= k < |filters| ==> filters[k].Filter? && WellFormedDecl(filters[k])
    requires forall k :: 0 <= k < |filters| ==>
             (ClosedStmts(filters[k].stmts) <==> AllReadable(b.policies[k].value.terms))
    ensures var ds := lists + filters + sessions;
            && WellFormed(ds)
            && ((forall i :: 0 <= i < |ds| && ds[i].Filter? ==> ClosedStmts(ds[i].stmts)) <==> Readable(b))
  {
    var ds := lists + filters + sessions;
    forall k | 0 <= k < |filters| ensures ds[|lists| + k] == filters[k] {
    }
    hide ClosedStmts, AllReadable;
  }

  /**
   A converted configuration is read back exactly, unless a printed term removes a single
   community given in place.
   */
  lemma ReadsBackExactlyWhenReadable(b: Bgp)
    requires Valid(b) && Translate(b).Some? && b.sessions.Some?
    ensures Parse(Print(Translate(b).value)) == if Readable(b) then Translate(b) else None
  {
    OutputReading(b);
    RoundTrip(Translate(b).value);
  }

  /**
   From document to decision: the text printed for a readable configuration, read back, holds
   a filter under the name of each policy, and where every term of the policy keeps its meaning the filter
   treats every route as the policy does.
   */
  lemma TextDecidesAsPolicy<R>(m: BirdMeaning.Meaning<R>, b: Bgp, k: nat, r: R)
    requires Valid(b) && Translate(b).Some? && b.sessions.Some? && Readable(b)
    requires k < |b.policies| && BirdMeaning.AllKept(b, b.policies[k].value.terms)
    ensures var ds := Parse(Print(Translate(b).value));
            && ds.Some?
            && exists i :: 0 <= i < |ds.value| && ds.value[i].Filter? && ds.value[i].name == b.policies[k].name
                           && BirdMeaning.RunFilter(m, ds.value, i, r)
                              == BirdMeaning.RunTerms(m, b, b.policies[k].value.terms, r)
  {
    ReadsBackExactlyWhenReadable(b);
    BirdMeaning.PolicyKeepsItsMeaning(m, b, k, r);
  }

  // ---------- What an accepted document cannot contain ----------

  lemma {:induction false} AcceptedTerm(b: Bgp, terms: seq<Term>, i: nat)
    requires TranslateTerms(b, terms).Some? && i < |terms|
    ensures TranslateTerm(b, terms[i]).Some?
    decreases |terms|
  {
    hide TranslateTerm;
    if i > 0 {
      AcceptedTerm(b, terms[1..], i - 1);
    }
  }

  /** Neither a "default-action" in a policy nor, in a term that is printed, a call of a rule. */
  lemma AcceptedPolicy(b: Bgp, k: nat, i: nat)
    requires Translate(b).Some? && k < |b.policies| && i < |b.policies[k].value.terms|
    ensures b.policies[k].value.defaultAction.None?
    ensures HasPrintedCondition(b.policies[k].value.terms[i].cond) ==>
            !b.policies[k].value.terms[i].act.action.CallRule?
  {
    var policy, t := b.policies[k], b.policies[k].value.terms[i];
    assert TranslatePolicy(b, policy).Some?;
    AcceptedTerm(b, policy.value.terms, i);
    PrintedWhenPresent(b, t.cond);
  }
}

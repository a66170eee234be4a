/** Which documents are converted, said on the document: names, prefix bounds, references and actions. */
module BirdAccepted {
  import opened Options
  import opened BirdSource
  import opened BirdTarget
  import opened BirdTranslate
  import opened BirdReading

  /** The bounds of an entry are not shorter than the prefix and do not cross. */
  predicate BoundsOk(e: PrefixEntry) {
    && (e.ge.Some? ==> e.pfx.len <= e.ge.value)
    && (e.le.Some? ==> e.pfx.len <= e.le.value)
    && (e.ge.Some? && e.le.Some? ==> e.ge.value <= e.le.value)
  }

  predicate PathOk(b: Bgp, sel: Option<PathSelect>) {
    match sel
    case Some(PathList(n)) => n in Names(b.asPathLists)
    case Some(PathPattern(_)) => false
    case _ => true
  }

  predicate CommOk(lists: seq<Named<seq<Community>>>, sel: Option<CommSelect>) {
    sel.Some? && sel.value.CommList? ==> sel.value.name in Names(lists)
  }

  /** Conditions without a renderer are not looked at, of a "net-eq" only the first prefix is. */
  predicate CondOk(b: Bgp, m: IfMatch) {
    && PathOk(b, m.asPathEq) && PathOk(b, m.asPathIn)
    && CommOk(b.communityLists, m.communityEq) && CommOk(b.communityLists, m.communityIn)
    && CommOk(b.extCommunityLists, m.extCommunityEq) && CommOk(b.extCommunityLists, m.extCommunityIn)
    && (m.netEq.Some? && m.netEq.value.entries != [] ==> BoundsOk(m.netEq.value.entries[0]))
  }

  /** A list named in an addition holds a single community. */
  predicate AddOk(b: Bgp, add: Option<CommAdd>) {
    match add
    case Some(AddList(None)) => false
    case Some(AddList(Some(n))) =>
      exists i :: 0 <= i < |b.communityLists| && b.communityLists[i].name == n && |b.communityLists[i].value| <= 1
    case _ => true
  }

  predicate ThenOk(b: Bgp, a: Then) {
    AddOk(b, a.communityAdd) && CommOk(b.communityLists, a.communityRemove) && !a.action.CallRule?
  }

  /** The actions of a term without printed condition are not looked at. */
  predicate TermOk(b: Bgp, t: Term) {
    CondOk(b, t.cond) && (HasPrintedCondition(t.cond) ==> ThenOk(b, t.act))
  }

  predicate PolicyOk(b: Bgp, p: Policy) {
    p.defaultAction.None? && forall i :: 0 <= i < |p.terms| ==> TermOk(b, p.terms[i])
  }

  predicate ChannelOk(b: Bgp, c: Option<Channel>) {
    c.Some? ==>
      && (c.value.policyIn.Some? ==> c.value.policyIn.value in Names(b.policies))
      && (c.value.policyOut.Some? ==> c.value.policyOut.value in Names(b.policies))
  }

  predicate SessionOk(b: Bgp, s: Session) {
    (s.ipv4.Some? || s.ipv6.Some?) && ChannelOk(b, s.ipv4) && ChannelOk(b, s.ipv6)
  }

  predicate ListOk(l: Named<seq<PrefixEntry>>) {
    forall i :: 0 <= i < |l.value| ==> BoundsOk(l.value[i])
  }

  predicate Acceptable(b: Bgp) {
    && Distinct(AllNames(b))
    && (forall i :: 0 <= i < |b.prefixV4Lists| ==> ListOk(b.prefixV4Lists[i]))
    && (forall i :: 0 <= i < |b.prefixV6Lists| ==> ListOk(b.prefixV6Lists[i]))
    && (forall i :: 0 <= i < |b.policies| ==> PolicyOk(b, b.policies[i].value))
    && (b.sessions.Some? ==> forall i :: 0 <= i < |b.sessions.value| ==> SessionOk(b, b.sessions.value[i]))
  }

  // ---------- References ----------

  lemma {:induction false} FoundWhenNamed<T>(lists: seq<Named<T>>, n: string)
    ensures Find(lists, n).Some? <==> n in Names(lists)
  {
    if lists != [] {
      FoundWhenNamed(lists[1..], n);
      assert Names(lists) == [lists[0].name] + Names(lists[1..]);
    }
  }

  lemma {:induction false} FoundIs<T>(lists: seq<Named<T>>, i: nat)
    requires i < |lists| && Distinct(Names(lists))
    ensures Find(lists, lists[i].name) == Some(lists[i].value)
  {
    if i > 0 {
      assert Names(lists)[0] != Names(lists)[i];
      assert forall j :: 0 <= j < |lists[1..]| ==> Names(lists[1..])[j] == Names(lists)[j + 1];
      FoundIs(lists[1..], i - 1);
    }
  }

  // ---------- Conditions and actions ----------

  lemma RangeAccepted(e: PrefixEntry, max: nat)
    ensures TranslateEntry(e, max).Some? <==> BoundsOk(e)
  {
  }

  lemma PathAccepted(b: Bgp, cmp: Cmp, sel: Option<PathSelect>)
    ensures TranslatePath(b, cmp, sel).Some? <==> PathOk(b, sel)
  {
    if sel.Some? && sel.value.PathList? {
      FoundWhenNamed(b.asPathLists, sel.value.name);
    }
  }

  lemma OperandAccepted(lists: seq<Named<seq<Community>>>, sel: Option<CommSelect>)
    ensures sel.Some? ==> (TranslateOperand(lists, sel.value).Some? <==> CommOk(lists, sel))
  {
    if sel.Some? && sel.value.CommList? {
      FoundWhenNamed(lists, sel.value.name);
    }
  }

  lemma {:induction false} ChecksAccepted(b: Bgp, m: IfMatch, k: nat)
    requires k <= CHECKS
    ensures ChecksUpTo(b, m, k).Some? <==> forall j :: 0 <= j < k ==> CheckAt(b, m, j).Some?
  {
    hide CheckAt;
    if k > 0 {
      ChecksAccepted(b, m, k - 1);
    }
  }

  lemma CheckAccepted(b: Bgp, m: IfMatch)
    ensures CondOk(b, m) <==> forall j :: 0 <= j < CHECKS ==> CheckAt(b, m, j).Some?
  {
    hide TranslatePath, TranslateOperand, TranslateEntry, PathOk, CommOk, BoundsOk;
    PathAccepted(b, Eq, m.asPathEq);
    PathAccepted(b, In, m.asPathIn);
    OperandAccepted(b.communityLists, m.communityEq);
    OperandAccepted(b.communityLists, m.communityIn);
    OperandAccepted(b.extCommunityLists, m.extCommunityEq);
    OperandAccepted(b.extCommunityLists, m.extCommunityIn);
    NoneIsOk(b);
    if m.netEq.Some? && m.netEq.value.entries != [] {
      RangeAccepted(m.netEq.value.entries[0], MaxLength(m.netEq.value.family));
    }
    if forall j :: 0 <= j < CHECKS ==> CheckAt(b, m, j).Some? {
      assert CheckAt(b, m, 0).Some? && CheckAt(b, m, 1).Some? && CheckAt(b, m, 2).Some? && CheckAt(b, m, 3).Some?;
      assert CheckAt(b, m, 4).Some? && CheckAt(b, m, 5).Some? && CheckAt(b, m, 6).Some?;
    }
  }

  lemma NoneIsOk(b: Bgp)
    ensures CommOk(b.communityLists, None) && CommOk(b.extCommunityLists, None)
  {
  }

  lemma AddAccepted(b: Bgp, add: Option<CommAdd>)
    requires Distinct(Names(b.communityLists))
    ensures TranslateAdd(b, add).Some? <==> AddOk(b, add)
  {
    if add.Some? && add.value.AddList? && add.value.name.Some? {
      var n := add.value.name.value;
      if AddOk(b, add) {
        var i :| 0 <= i < |b.communityLists| && b.communityLists[i].name == n && |b.communityLists[i].value| <= 1;
        FoundIs(b.communityLists, i);
      } else if Find(b.communityLists, n).Some? {
        var i := FindSome(b.communityLists, n);
        assert |b.communityLists[i].value| > 1;
      }
    }
  }

  lemma ThenAccepted(b: Bgp, a: Then)
    requires Distinct(Names(b.communityLists))
    ensures TranslateThen(b, a).Some? <==> ThenOk(b, a)
  {
    AddAccepted(b, a.communityAdd);
    OperandAccepted(b.communityLists, a.communityRemove);
    hide TranslateAdd, TranslatePrepend, TranslateSets, AddOk;
  }

  lemma TermAccepted(b: Bgp, t: Term)
    requires Distinct(Names(b.communityLists))
    ensures TranslateTerm(b, t).Some? <==> TermOk(b, t)
  {
    hide ChecksUpTo, CheckAt, CondOk, ThenOk, TranslateThen, HasPrintedCondition;
    ChecksAccepted(b, t.cond, CHECKS);
    CheckAccepted(b, t.cond);
    ThenAccepted(b, t.act);
    if Checks(b, t.cond).Some? {
      PrintedWhenPresent(b, t.cond);
    }
  }

  // ---------- Sections ----------

  lemma {:induction false} TermsAccepted(b: Bgp, terms: seq<Term>)
    requires Distinct(Names(b.communityLists))
    ensures TranslateTerms(b, terms).Some? <==> forall i :: 0 <= i < |terms| ==> TermOk(b, terms[i])
    decreases |terms|
  {
    hide TranslateTerm, TermOk, Distinct, Names;
    if terms != [] {
      TermAccepted(b, terms[0]);
      TermsAccepted(b, terms[1..]);
      assert forall i :: 1 <= i < |terms| ==> terms[i] == terms[1..][i - 1];
    }
  }

  lemma {:induction false} FiltersAccepted(b: Bgp, policies: seq<Named<Policy>>)
    requires Distinct(Names(b.communityLists))
    ensures FilterDecls(b, policies).Some? <==> forall i :: 0 <= i < |policies| ==> PolicyOk(b, policies[i].value)
    decreases |policies|
  {
    hide TranslateTerms, TermOk, Distinct, Names;
    if policies != [] {
      TermsAccepted(b, policies[0].value.terms);
      FiltersAccepted(b, policies[1..]);
      hide PolicyOk;
      assert forall i :: 1 <= i < |policies| ==> policies[i] == policies[1..][i - 1];
    }
  }

  lemma EntriesAccepted(l: Named<seq<PrefixEntry>>, max: nat)
    ensures TranslateNets(l, max).Some? <==> ListOk(l)
  {
    hide TranslateEntry, BoundsOk;
    forall i | 0 <= i < |l.value| ensures TranslateEntry(l.value[i], max).Some? <==> BoundsOk(l.value[i]) {
      RangeAccepted(l.value[i], max);
    }
  }

  lemma {:induction false} NetsAccepted(lists: seq<Named<seq<PrefixEntry>>>, max: nat)
    ensures NetDecls(lists, max).Some? <==> forall i :: 0 <= i < |lists| ==> ListOk(lists[i])
    decreases |lists|
  {
    hide TranslateNets, ListOk;
    if lists != [] {
      EntriesAccepted(lists[0], max);
      NetsAccepted(lists[1..], max);
      assert forall i :: 1 <= i < |lists| ==> lists[i] == lists[1..][i - 1];
    }
  }

  lemma SessionAccepted(b: Bgp, s: Session)
    ensures TranslateSession(b, s).Some? <==> SessionOk(b, s)
  {
    ChannelAccepted(b, s.ipv4);
    ChannelAccepted(b, s.ipv6);
    hide KnownChannel, ChannelOk;
  }

  lemma ChannelAccepted(b: Bgp, c: Option<Channel>)
    ensures KnownChannel(b, c) <==> ChannelOk(b, c)
  {
    if c.Some? && c.value.policyIn.Some? {
      FoundWhenNamed(b.policies, c.value.policyIn.value);
    }
    if c.Some? && c.value.policyOut.Some? {
      FoundWhenNamed(b.policies, c.value.policyOut.value);
    }
  }

  lemma {:induction false} SessionsAccepted(b: Bgp, sessions: seq<Session>)
    ensures SessionDecls(b, sessions).Some? <==> forall i :: 0 <= i < |sessions| ==> SessionOk(b, sessions[i])
    decreases |sessions|
  {
    hide TranslateSession, SessionOk;
    if sessions != [] {
      SessionAccepted(b, sessions[0]);
      SessionsAccepted(b, sessions[1..]);
      assert forall i :: 1 <= i < |sessions| ==> sessions[i] == sessions[1..][i - 1];
    }
  }

  lemma CommunityNamesDistinct(b: Bgp)
    requires Distinct(AllNames(b))
    ensures Distinct(Names(b.communityLists))
  {
    var names, at := Names(b.communityLists), |b.asPathLists|;
    assert forall i :: 0 <= i < |names| ==> AllNames(b)[at + i] == names[i];
  }

  /** A document is converted if and only if this holds of it; without sessions to nothing. */
  lemma AcceptedExactly(b: Bgp)
    ensures Translate(b).Some? <==> Acceptable(b)
    ensures Translate(b).Some? && b.sessions.None? ==> Translate(b) == Some([])
  {
    hide AllNames, Names, Distinct, NetDecls, FilterDecls, SessionDecls, ListOk, PolicyOk, SessionOk;
    if Distinct(AllNames(b)) {
      CommunityNamesDistinct(b);
      NetsAccepted(b.prefixV4Lists, 32);
      NetsAccepted(b.prefixV6Lists, 128);
      FiltersAccepted(b, b.policies);
      if b.sessions.Some? {
        SessionsAccepted(b, b.sessions.value);
      }
    }
  }
}

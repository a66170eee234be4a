/**
 What a converted document prints, said on document and output: every list under its name with
 its contents, every session with the policies of each family, and so what becomes of every route
 that a session exchanges.
 */
module BirdOutput {
  import opened Options
  import opened BirdSource
  import opened BirdTarget
  import opened BirdTranslate
  import opened BirdMeaning
  import BirdParser
  import BirdReading
  import PrefixBounds

  // ---------- Lists ----------

  /** Looking the name up gives the AS numbers, or the communities, of the list of that name. */
  ghost predicate AsnsResolve(ds: seq<Decl>, lists: seq<Named<seq<nat>>>) {
    forall i :: 0 <= i < |lists| ==> Lookup(ds, lists[i].name) == Some(DefineAsns(lists[i].name, lists[i].value))
  }

  ghost predicate CommsResolve(ds: seq<Decl>, lists: seq<Named<seq<Community>>>) {
    forall i :: 0 <= i < |lists| ==> Lookup(ds, lists[i].name) == Some(DefineComms(lists[i].name, lists[i].value))
  }

  /** It gives entries with the prefixes of the list, in order, each with the bounds it asks for. */
  ghost predicate NetsResolve(ds: seq<Decl>, lists: seq<Named<seq<PrefixEntry>>>, max: nat) {
    forall i :: 0 <= i < |lists| ==>
      var d := Lookup(ds, lists[i].name);
      d.Some? && d.value.DefineNets? && SameNets(lists[i].value, d.value.entries, max)
  }

  ghost predicate SameNets(es: seq<PrefixEntry>, printed: seq<Entry>, max: nat) {
    |printed| == |es| && forall k :: 0 <= k < |es| ==> SameNet(es[k], printed[k], max)
  }

  /** The same prefix, and bounds that match exactly the sub-prefixes asked for in an address of this many bits. */
  ghost predicate SameNet(e: PrefixEntry, printed: Entry, max: nat) {
    && printed.pfx == e.pfx
    && (printed.range.Some? ==> e.pfx.len <= printed.range.value.lo)
    && (e.pfx.len <= max && PrefixBounds.Within(e.ge, max) && PrefixBounds.Within(e.le, max) ==>
          && (printed.range.Some? ==> printed.range.value.lo <= printed.range.value.hi <= max)
          && forall p: PrefixBounds.Bits, q: PrefixBounds.Bits :: |p| == e.pfx.len && |q| <= max ==>
               (PrefixBounds.Matched(p, printed.range, q) <==> PrefixBounds.Allowed(p, e.ge, e.le, q)))
  }

  lemma EntryPrinted(e: PrefixEntry, max: nat)
    requires TranslateEntry(e, max).Some?
    ensures SameNet(e, TranslateEntry(e, max).value, max)
  {
    var printed := TranslateEntry(e, max).value;
    if e.pfx.len <= max && PrefixBounds.Within(e.ge, max) && PrefixBounds.Within(e.le, max) {
      forall p: PrefixBounds.Bits, q: PrefixBounds.Bits | |p| == e.pfx.len && |q| <= max
        ensures PrefixBounds.Matched(p, printed.range, q) <==> PrefixBounds.Allowed(p, e.ge, e.le, q)
      {
        PrefixBounds.MatchesExactlyTheAllowed(p, e.ge, e.le, max, q);
      }
    }
  }

  /** A "net-eq" prints its first prefix with the bounds a list of its family would print. */
  lemma NetEqPrintsFirst(f: Family, es: seq<PrefixEntry>)
    requires es != [] && TranslateNetEq(Some(NetEq(f, es))).Some?
    ensures var ts := TranslateNetEq(Some(NetEq(f, es))).value;
            && |ts| == 1 && ts[0].NetTest?
            && SameNet(es[0], Entry(ts[0].pfx, ts[0].range), if f == V4 then 32 else 128)
  {
    hide TranslateEntry, SameNet;
    EntryPrinted(es[0], MaxLength(f));
  }

  lemma NetsPrinted(l: Named<seq<PrefixEntry>>, max: nat)
    requires TranslateNets(l, max).Some?
    ensures SameNets(l.value, TranslateNets(l, max).value.entries, max)
  {
    hide TranslateEntry, SameNet;
    var printed := TranslateNets(l, max).value.entries;
    forall k | 0 <= k < |l.value| ensures SameNet(l.value[k], printed[k], max) {
      assert TranslateEntry(l.value[k], max) == Some(printed[k]);
      EntryPrinted(l.value[k], max);
    }
  }

  /** The lists of a kind stand together in the output; this is where. */
  lemma SectionResolves(b: Bgp, at: nat, d: Decl, n: string)
    requires Translate(b).Some? && b.sessions.Some? && at < |ListDecls(b).value|
    requires ListDecls(b).Some? && ListDecls(b).value[at] == d && Defined(d) == Some(n)
    ensures Lookup(Translate(b).value, n) == Some(d)
  {
    hide Translate, ListDecls, FilterDecls, SessionDecls, DefinedBeforeUse;
    var filters, sessions := ListsFirst(b);
    NamesResolve(b);
    hide DistinctlyDefined;
    assert Translate(b).value[at] == d;
    LookupFindsTheOne(Translate(b).value, at, n);
  }

  lemma AsnsPrinted(b: Bgp)
    requires Translate(b).Some? && b.sessions.Some?
    ensures AsnsResolve(Translate(b).value, b.asPathLists)
  {
    hide Translate, ListDecls, Lookup;
    HaveLists(b);
    forall i | 0 <= i < |b.asPathLists|
      ensures Lookup(Translate(b).value, b.asPathLists[i].name)
              == Some(DefineAsns(b.asPathLists[i].name, b.asPathLists[i].value))
    {
      AsnDeclAt(b, i);
      SectionResolves(b, i, ListDecls(b).value[i], b.asPathLists[i].name);
    }
  }

  lemma HaveLists(b: Bgp)
    requires Translate(b).Some?
    ensures ListDecls(b).Some? && FilterDecls(b, b.policies).Some?
    ensures b.sessions.Some? ==> SessionDecls(b, b.sessions.value).Some?
  {
    hide ListDecls, FilterDecls, SessionDecls, AllNames;
  }

  lemma CommsPrinted(b: Bgp)
    requires Translate(b).Some? && b.sessions.Some?
    ensures CommsResolve(Translate(b).value, b.communityLists)
    ensures CommsResolve(Translate(b).value, b.extCommunityLists)
    ensures CommsResolve(Translate(b).value, b.largeCommunityLists)
  {
    hide Translate, ListDecls, Lookup;
    HaveLists(b);
    var ds := Translate(b).value;
    forall i | 0 <= i < |b.communityLists|
      ensures Lookup(ds, b.communityLists[i].name)
              == Some(DefineComms(b.communityLists[i].name, b.communityLists[i].value))
    {
      CommDeclAt(b, i);
      var at := |b.asPathLists| + i;
      SectionResolves(b, at, ListDecls(b).value[at], b.communityLists[i].name);
    }
    forall i | 0 <= i < |b.extCommunityLists|
      ensures Lookup(ds, b.extCommunityLists[i].name)
              == Some(DefineComms(b.extCommunityLists[i].name, b.extCommunityLists[i].value))
    {
      ExtCommDeclAt(b, i);
      var at := |b.asPathLists| + |b.communityLists| + i;
      SectionResolves(b, at, ListDecls(b).value[at], b.extCommunityLists[i].name);
    }
    forall i | 0 <= i < |b.largeCommunityLists|
      ensures Lookup(ds, b.largeCommunityLists[i].name)
              == Some(DefineComms(b.largeCommunityLists[i].name, b.largeCommunityLists[i].value))
    {
      LargeCommDeclAt(b, i);
      var at := |b.asPathLists| + |b.communityLists| + |b.extCommunityLists| + i;
      SectionResolves(b, at, ListDecls(b).value[at], b.largeCommunityLists[i].name);
    }
  }

  lemma LargeCommDeclAt(b: Bgp, i: nat)
    requires ListDecls(b).Some? && i < |b.largeCommunityLists|
    ensures var j := |b.asPathLists| + |b.communityLists| + |b.extCommunityLists| + i;
            j < |ListDecls(b).value|
            && ListDecls(b).value[j] == DefineComms(b.largeCommunityLists[i].name, b.largeCommunityLists[i].value)
  {
  }

  lemma V4DeclAt(b: Bgp, i: nat)
    requires ListDecls(b).Some? && i < |b.prefixV4Lists|
    ensures var j := |b.asPathLists| + |b.communityLists| + |b.extCommunityLists| + |b.largeCommunityLists| + i;
            j < |ListDecls(b).value| && Some(ListDecls(b).value[j]) == TranslateNets(b.prefixV4Lists[i], 32)
  {
    hide TranslateNets, NetDecls;
    assert TranslateNets(b.prefixV4Lists[i], 32) == Some(NetDecls(b.prefixV4Lists, 32).value[i]);
  }

  lemma V6DeclAt(b: Bgp, i: nat)
    requires ListDecls(b).Some? && i < |b.prefixV6Lists|
    ensures var j := |b.asPathLists| + |b.communityLists| + |b.extCommunityLists| + |b.largeCommunityLists|
                     + |b.prefixV4Lists| + i;
            j < |ListDecls(b).value| && Some(ListDecls(b).value[j]) == TranslateNets(b.prefixV6Lists[i], 128)
  {
    hide TranslateNets, NetDecls;
    assert TranslateNets(b.prefixV6Lists[i], 128) == Some(NetDecls(b.prefixV6Lists, 128).value[i]);
  }

  lemma NetsArePrinted(b: Bgp)
    requires Translate(b).Some? && b.sessions.Some?
    ensures NetsResolve(Translate(b).value, b.prefixV4Lists, 32)
    ensures NetsResolve(Translate(b).value, b.prefixV6Lists, 128)
  {
    hide Translate, ListDecls, Lookup, TranslateEntries, SameNets;
    HaveLists(b);
    forall i | 0 <= i < |b.prefixV4Lists|
      ensures var d := Lookup(Translate(b).value, b.prefixV4Lists[i].name);
              d.Some? && d.value.DefineNets? && SameNets(b.prefixV4Lists[i].value, d.value.entries, 32)
    {
      V4DeclAt(b, i);
      var at := |b.asPathLists| + |b.communityLists| + |b.extCommunityLists| + |b.largeCommunityLists| + i;
      SectionResolves(b, at, ListDecls(b).value[at], b.prefixV4Lists[i].name);
      NetsPrinted(b.prefixV4Lists[i], 32);
    }
    forall i | 0 <= i < |b.prefixV6Lists|
      ensures var d := Lookup(Translate(b).value, b.prefixV6Lists[i].name);
              d.Some? && d.value.DefineNets? && SameNets(b.prefixV6Lists[i].value, d.value.entries, 128)
    {
      V6DeclAt(b, i);
      var at := |b.asPathLists| + |b.communityLists| + |b.extCommunityLists| + |b.largeCommunityLists|
          + |b.prefixV4Lists| + i;
      SectionResolves(b, at, ListDecls(b).value[at], b.prefixV6Lists[i].name);
      NetsPrinted(b.prefixV6Lists[i], 128);
    }
  }

  /** In every successful output each of the six kinds of lists is found under its name, with its contents. */
  lemma ListsKeepTheirContents(b: Bgp)
    requires Translate(b).Some? && b.sessions.Some?
    ensures var ds := Translate(b).value;
            && AsnsResolve(ds, b.asPathLists)
            && CommsResolve(ds, b.communityLists) && CommsResolve(ds, b.extCommunityLists)
            && CommsResolve(ds, b.largeCommunityLists)
            && NetsResolve(ds, b.prefixV4Lists, 32) && NetsResolve(ds, b.prefixV6Lists, 128)
  {
    hide Translate, AsnsResolve, CommsResolve, NetsResolve;
    AsnsPrinted(b);
    CommsPrinted(b);
    NetsArePrinted(b);
  }

  // ---------- Sessions ----------

  function ChannelOf(s: Session, f: Family): Option<Channel> {
    match f
    case V4 => s.ipv4
    case V6 => s.ipv6
  }

  function PrintedChannel(d: Decl, f: Family): Option<Channel>
    requires d.BgpSession?
  {
    match f
    case V4 => d.ipv4
    case V6 => d.ipv6
  }

  function SessionIndex(b: Bgp, k: nat): nat {
    |AllNames(b)| + k
  }

  /**
   The k-th session of the output has the k-th session's name and, in each family, a channel exactly
   when the document has one, with the import and the export policy named there.
   */
  lemma SessionsKeepTheirPolicies(b: Bgp, k: nat, f: Family)
    requires Translate(b).Some? && b.sessions.Some? && k < |b.sessions.value|
    ensures var ds := Translate(b).value;
            var s := b.sessions.value[k];
            && |ds| == |AllNames(b)| + |b.sessions.value|
            && ds[SessionIndex(b, k)].BgpSession? && ds[SessionIndex(b, k)].name == s.name
            && var c := PrintedChannel(ds[SessionIndex(b, k)], f);
               && (c.Some? <==> ChannelOf(s, f).Some?)
               && (c.Some? ==> c.value.policyIn == ChannelOf(s, f).value.policyIn
                               && c.value.policyOut == ChannelOf(s, f).value.policyOut)
  {
    hide Translate, ListDecls, FilterDecls, SessionDecls, AllNames, ListNames, Distinct, Defined, Uses;
    var lists, filters, sessions := Layout(b);
    assert TranslateSession(b, b.sessions.value[k]) == Some(sessions[k]);
    assert (lists + filters + sessions)[|lists + filters| + k] == sessions[k];
  }

  // ---------- What becomes of a route ----------

  datatype Direction = Import | Export

  /** A family may not be exchanged at all, or without a filter, or through one. */
  datatype Passage<R> = NotExchanged | Unfiltered | Filtered(flow: Flow<R>) | Undefined

  function PolicyFor(c: Channel, dir: Direction): Option<string> {
    match dir
    case Import => c.policyIn
    case Export => c.policyOut
  }

  /** The document: the policy that the session names for this family and direction. */
  function Exchanged<R>(m: Meaning<R>, b: Bgp, s: Session, f: Family, dir: Direction, r: R): Passage<R> {
    var c := ChannelOf(s, f);
    if c.None? then NotExchanged else
    match PolicyFor(c.value, dir)
    case None => Unfiltered
    case Some(n) =>
      match Find(b.policies, n)
      case None => Undefined
      case Some(p) => Filtered(RunTerms(m, b, p.terms, r))
  }

  /** Where the name is defined. */
  function Place(ds: seq<Decl>, n: string): (i: nat)
    ensures i <= |ds| && (i < |ds| ==> Defined(ds[i]) == Some(n))
    ensures forall j :: 0 <= j < i ==> Defined(ds[j]) != Some(n)
  {
    if ds == [] || Defined(ds[0]) == Some(n) then 0 else
    var i := Place(ds[1..], n);
    assert forall j :: 1 <= j < |ds| ==> ds[j] == ds[1..][j - 1];
    1 + i
  }

  /** The output: the filter that the channel of this family names for this direction. */
  function Passed<R>(m: Meaning<R>, ds: seq<Decl>, d: Decl, f: Family, dir: Direction, r: R): Passage<R>
    requires d.BgpSession?
  {
    var c := PrintedChannel(d, f);
    if c.None? then NotExchanged else
    match PolicyFor(c.value, dir)
    case None => Unfiltered
    case Some(n) =>
      var i := Place(ds, n);
      if i < |ds| && ds[i].Filter? then Filtered(RunFilter(m, ds, i, r)) else Undefined
  }

  lemma PlaceIs(ds: seq<Decl>, i: nat, n: string)
    requires i < |ds| && Defined(ds[i]) == Some(n) && DistinctlyDefined(ds)
    ensures Place(ds, n) == i
  {
  }

  /** A policy a session may name stands at its index under its name. */
  lemma PolicyPlace(b: Bgp, n: string) returns (k: nat)
    requires Translate(b).Some? && b.sessions.Some? && Find(b.policies, n).Some?
    ensures k < |b.policies| && b.policies[k].name == n && Find(b.policies, n) == Some(b.policies[k].value)
    ensures FilterIndex(b, k) < |Translate(b).value| && Place(Translate(b).value, n) == FilterIndex(b, k)
  {
    hide Translate, ListNames, DefinedBeforeUse;
    k := FindSome(b.policies, n);
    FilterAt(b, k);
    NamesResolve(b);
    PlaceIs(Translate(b).value, FilterIndex(b, k), n);
  }

  lemma SessionPoliciesKnown(b: Bgp, k: nat)
    requires Translate(b).Some? && b.sessions.Some? && k < |b.sessions.value|
    ensures KnownChannel(b, b.sessions.value[k].ipv4) && KnownChannel(b, b.sessions.value[k].ipv6)
  {
    hide ListDecls, FilterDecls, AllNames, KnownChannel;
    HaveLists(b);
    assert TranslateSession(b, b.sessions.value[k]).Some?;
  }

  ghost predicate AllTermsKept(b: Bgp) {
    forall k :: 0 <= k < |b.policies| ==> AllKept(b, b.policies[k].value.terms)
  }

  /**
   For every accepted document whose terms keep their meaning, every session, family, direction,
   semantics and route: the route fares with the printed session as with the session of the document.
   */
  lemma SessionsExchangeAsTheDocument<R>(m: Meaning<R>, b: Bgp, k: nat, f: Family, dir: Direction, r: R)
    requires Translate(b).Some? && b.sessions.Some? && k < |b.sessions.value| && AllTermsKept(b)
    ensures var ds := Translate(b).value;
            && SessionIndex(b, k) < |ds| && ds[SessionIndex(b, k)].BgpSession?
            && Passed(m, ds, ds[SessionIndex(b, k)], f, dir, r) == Exchanged(m, b, b.sessions.value[k], f, dir, r)
  {
    hide Translate, AllNames, ListNames, Place, RunTerms, RunStmts;
    var ds, c := Translate(b).value, ChannelOf(b.sessions.value[k], f);
    SessionsKeepTheirPolicies(b, k, f);
    SessionPoliciesKnown(b, k);
    if c.Some? && PolicyFor(c.value, dir).Some? {
      var n := PolicyFor(c.value, dir).value;
      assert Find(b.policies, n).Some?;
      var p := PolicyPlace(b, n);
      PolicyKeepsItsMeaning(m, b, p, r);
    }
  }

  /** The same from the text: what is read back exchanges every route as the document says. */
  lemma TextExchangesAsTheDocument<R>(m: Meaning<R>, b: Bgp, k: nat, f: Family, dir: Direction, r: R)
    requires Valid(b) && Translate(b).Some? && b.sessions.Some? && BirdReading.Readable(b)
    requires k < |b.sessions.value| && AllTermsKept(b)
    ensures var ds := BirdParser.Parse(Print(Translate(b).value));
            && ds.Some? && SessionIndex(b, k) < |ds.value| && ds.value[SessionIndex(b, k)].BgpSession?
            && ds.value[SessionIndex(b, k)].name == b.sessions.value[k].name
            && Passed(m, ds.value, ds.value[SessionIndex(b, k)], f, dir, r)
               == Exchanged(m, b, b.sessions.value[k], f, dir, r)
  {
    hide Translate, Print, AllNames, BirdParser.Parse, Passed, Exchanged, AllTermsKept;
    BirdReading.ReadsBackExactlyWhenReadable(b);
    SessionsKeepTheirPolicies(b, k, f);
    SessionsExchangeAsTheDocument(m, b, k, f, dir, r);
  }
}

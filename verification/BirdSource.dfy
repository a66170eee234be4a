/**
 The BGP part of a configuration document as the JSON schema shapes it: predefined lists,
 policies and sessions.  Objects are sequences in the order in which they are iterated.
 */
module BirdSource {
  import opened Options

  /** The colon-separated numbers of a standard, extended or large community. */
  type Community = seq<nat>

  datatype Family = V4 | V6

  function MaxLength(f: Family): nat {
    match f
    case V4 => 32
    case V6 => 128
  }

  datatype Prefix = Prefix(addr: string, len: nat)

  datatype PrefixEntry = PrefixEntry(pfx: Prefix, ge: Option<nat>, le: Option<nat>)

  datatype Named<T> = Named(name: string, value: T)

  datatype PathSelect = PathInline(asns: seq<nat>) | PathList(name: string) | PathPattern(pattern: string)

  datatype CommSelect = CommInline(cs: seq<Community>) | CommList(name: string)

  datatype NetEq = NetEq(family: Family, entries: seq<PrefixEntry>)

  datatype NetIn = InPrefixes(family: Family, entries: seq<PrefixEntry>) | InList(family: Family, name: string)

  datatype Protocol = FromBgp | FromStatic

  datatype IfMatch = IfMatch(
    matchAny: bool,
    asPathEq: Option<PathSelect>, asPathIn: Option<PathSelect>,
    as4PathEq: Option<PathSelect>, as4PathIn: Option<PathSelect>,
    communityEq: Option<CommSelect>, communityIn: Option<CommSelect>,
    extCommunityEq: Option<CommSelect>, extCommunityIn: Option<CommSelect>,
    largeCommunityEq: Option<CommSelect>, largeCommunityIn: Option<CommSelect>,
    netEq: Option<NetEq>, netIn: Option<NetIn>,
    netTypeEq: Option<Family>, sourceEq: Option<Protocol>)

  datatype CommAdd = AddInline(c: Community) | AddList(name: Option<string>)

  datatype PathPrepend = PathPrepend(asn: nat, times: Option<nat>)

  datatype Action = Deny | Permit | CallNext | CallRule(rule: Option<string>)

  datatype Then = Then(
    prepend: Option<PathPrepend>,
    communityAdd: Option<CommAdd>, communityRemove: Option<CommSelect>,
    extCommunityAdd: Option<CommSelect>, extCommunityRemove: Option<CommSelect>,
    largeCommunityAdd: Option<CommSelect>, largeCommunityRemove: Option<CommSelect>,
    localPreference: Option<nat>, med: Option<nat>,
    action: Action)

  datatype Term = Term(cond: IfMatch, act: Then)

  /** The terms of a policy; a "default-action" key stands beside them in the same object. */
  datatype Policy = Policy(defaultAction: Option<string>, terms: seq<Term>)

  datatype Channel = Channel(policyIn: Option<string>, policyOut: Option<string>)

  datatype Session = Session(name: string, ipv4: Option<Channel>, ipv6: Option<Channel>)

  datatype Bgp = Bgp(
    asPathLists: seq<Named<seq<nat>>>,
    communityLists: seq<Named<seq<Community>>>,
    extCommunityLists: seq<Named<seq<Community>>>,
    largeCommunityLists: seq<Named<seq<Community>>>,
    prefixV4Lists: seq<Named<seq<PrefixEntry>>>,
    prefixV6Lists: seq<Named<seq<PrefixEntry>>>,
    policies: seq<Named<Policy>>,
    sessions: Option<seq<Session>>)

  function Find<T>(lists: seq<Named<T>>, name: string): Option<T> {
    if lists == [] then None
    else if lists[0].name == name then Some(lists[0].value)
    else Find(lists[1..], name)
  }

  function Names<T>(lists: seq<Named<T>>): (names: seq<string>)
    ensures |names| == |lists|
    ensures forall i :: 0 <= i < |lists| ==> names[i] == lists[i].name
  {
    seq(|lists|, i requires 0 <= i < |lists| => lists[i].name)
  }

  // ---------- What the schema guarantees and the converter relies on ----------

  predicate ValidCommunities(cs: seq<Community>) {
    |cs| > 0 && forall i :: 0 <= i < |cs| ==> |cs[i]| > 0
  }

  predicate ValidPathSelect(p: Option<PathSelect>) {
    p.Some? && p.value.PathInline? ==> |p.value.asns| > 0
  }

  predicate ValidCommSelect(c: Option<CommSelect>) {
    c.Some? && c.value.CommInline? ==> ValidCommunities(c.value.cs)
  }

  predicate ValidTerm(t: Term) {
    && ValidPathSelect(t.cond.asPathEq) && ValidPathSelect(t.cond.asPathIn)
    && ValidCommSelect(t.cond.communityEq) && ValidCommSelect(t.cond.communityIn)
    && ValidCommSelect(t.cond.extCommunityEq) && ValidCommSelect(t.cond.extCommunityIn)
    && ValidCommSelect(t.act.communityRemove)
    && (t.act.communityAdd.Some? && t.act.communityAdd.value.AddInline? ==> |t.act.communityAdd.value.c| > 0)
  }

  predicate ValidPolicy(p: Policy) {
    forall i :: 0 <= i < |p.terms| ==> ValidTerm(p.terms[i])
  }

  /** Arrays are non-empty (minItems); without that the source indexes out of range. */
  predicate Valid(b: Bgp) {
    && (forall i :: 0 <= i < |b.asPathLists| ==> |b.asPathLists[i].value| > 0)
    && (forall i :: 0 <= i < |b.communityLists| ==> ValidCommunities(b.communityLists[i].value))
    && (forall i :: 0 <= i < |b.extCommunityLists| ==> ValidCommunities(b.extCommunityLists[i].value))
    && (forall i :: 0 <= i < |b.largeCommunityLists| ==> ValidCommunities(b.largeCommunityLists[i].value))
    && (forall i :: 0 <= i < |b.policies| ==> ValidPolicy(b.policies[i].value))
  }
}

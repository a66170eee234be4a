/** Which routes the bounds of a prefix entry admit.  A prefix is the string of its leading bits. */
module PrefixBounds {
  import opened Options
  import opened BirdSource
  import opened BirdTarget
  import opened BirdTranslate
  import BirdMeaning

  type Bits = seq<bool>

  /** What an entry asks for: the prefix itself, or its sub-prefixes at least "ge" and at most "le" long. */
  predicate Allowed(p: Bits, ge: Option<nat>, le: Option<nat>, q: Bits) {
    if ge.None? && le.None? then q == p
    else p <= q && (ge.Some? ==> ge.value <= |q|) && (le.Some? ==> |q| <= le.value)
  }

  /**
   What a printed prefix matches: without bounds itself, with bounds every prefix of such a
   length that agrees with it.
   */
  predicate Matched(p: Bits, range: Option<Range>, q: Bits) {
    match range
    case None => q == p
    case Some(Range(lo, hi)) => lo <= |q| <= hi && forall i :: 0 <= i < |p| && i < |q| ==> p[i] == q[i]
  }

  /** The same through the shortest and the longest length a policy's "net-eq" goes by. */
  lemma AllowedByLengths(p: Bits, e: PrefixEntry, max: nat, q: Bits)
    requires e.pfx.len == |p| && |q| <= max
    ensures Allowed(p, e.ge, e.le, q) <==>
            BirdMeaning.Shortest(e) <= |q| <= BirdMeaning.Longest(e, max) && p <= q
  {
    if e.ge.None? && e.le.None? && p <= q && |q| == |p| {
      assert q == q[..|p|] == p;
    }
  }

  predicate Within(bound: Option<nat>, max: nat) {
    bound.Some? ==> bound.value <= max
  }

  /** An accepted entry is printed with bounds that match exactly what it asks for, in either family. */
  lemma MatchesExactlyTheAllowed(p: Bits, ge: Option<nat>, le: Option<nat>, max: nat, q: Bits)
    requires |p| <= max && |q| <= max
    requires TranslateRange(|p|, ge, le, max).Some?
    ensures Matched(p, TranslateRange(|p|, ge, le, max).value, q) <==> Allowed(p, ge, le, q)
  {
    var range := TranslateRange(|p|, ge, le, max).value;
    if range.Some? && range.value.lo <= |q| {
      assert Matched(p, range, q) ==> p == q[..|p|];
    }
  }

  ghost predicate NoneAllowed(p: Bits, ge: Option<nat>, le: Option<nat>, max: nat) {
    forall q: Bits :: |q| <= max ==> !Allowed(p, ge, le, q)
  }

  /**
   Rejected exactly when a bound is shorter than the prefix or the bounds cross, which is to
   say: the lower bound is too short or no prefix at all is allowed.  Otherwise the printed
   bounds are in order.
   */
  lemma RejectedWhenEmptyOrTooShort(p: Bits, ge: Option<nat>, le: Option<nat>, max: nat)
    requires |p| <= max && Within(ge, max) && Within(le, max)
    ensures var range := TranslateRange(|p|, ge, le, max);
            && (range.None? <==> (ge.Some? && |p| > ge.value) || (le.Some? && |p| > le.value)
                                 || (ge.Some? && le.Some? && ge.value > le.value))
            && (range.None? <==> (ge.Some? && ge.value < |p|) || NoneAllowed(p, ge, le, max))
            && (range.Some? && range.value.Some? ==> |p| <= range.value.value.lo <= range.value.value.hi <= max)
  {
    var range := TranslateRange(|p|, ge, le, max);
    if range.Some? {
      var n := if range.value.Some? then range.value.value.lo else |p|;
      var q := p + seq(n - |p|, _ => false);
      assert p <= q;
      assert |q| <= max && Allowed(p, ge, le, q);
    }
  }

  predicate SomeAllowed(es: seq<PrefixEntry>, bits: seq<Bits>, q: Bits)
    requires |es| == |bits|
  {
    exists i :: 0 <= i < |es| && Allowed(bits[i], es[i].ge, es[i].le, q)
  }

  predicate SomeMatched(es: seq<Entry>, bits: seq<Bits>, q: Bits)
    requires |es| == |bits|
  {
    exists i :: 0 <= i < |es| && Matched(bits[i], es[i].range, q)
  }

  /** A prefix list admits the union of what its entries ask for. */
  lemma ListMatchesTheUnion(es: seq<PrefixEntry>, bits: seq<Bits>, max: nat, q: Bits)
    requires |es| == |bits| && |q| <= max && TranslateEntries(es, max).Some?
    requires forall i :: 0 <= i < |es| ==> es[i].pfx.len == |bits[i]| <= max
    ensures SomeMatched(TranslateEntries(es, max).value, bits, q) <==> SomeAllowed(es, bits, q)
  {
    var printed := TranslateEntries(es, max).value;
    forall i | 0 <= i < |es|
      ensures Matched(bits[i], printed[i].range, q) <==> Allowed(bits[i], es[i].ge, es[i].le, q)
    {
      assert TranslateEntry(es[i], max) == Some(printed[i]);
      MatchesExactlyTheAllowed(bits[i], es[i].ge, es[i].le, max, q);
    }
    if SomeAllowed(es, bits, q) {
      var i :| 0 <= i < |es| && Allowed(bits[i], es[i].ge, es[i].le, q);
      assert Matched(bits[i], printed[i].range, q);
    }
  }
}

/** Byte ranges of a request: replaced by positions, checked, sorted and merged in place. */
module Ranges {
  /** As parsed: -1 for an absent position, so that (-1, n) asks for the last n bytes. */
  datatype Range = Range(first: int, last: int)

  const MAX_COUNT: nat := 1024

  predicate InContent(r: Range, len: nat) {
    0 <= r.first <= r.last < len
  }

  predicate Covers(r: Range, p: int) {
    r.first <= p <= r.last
  }

  /** Position p of a content of this length is asked for (section 14.1.2 of RFC 9110). */
  predicate Requested(r: Range, len: nat, p: int) {
    && 0 <= p < len
    && (if r.first == -1 && r.last == -1 then true
        else if r.first == -1 then len - r.last <= p
        else if r.last == -1 then r.first <= p
        else r.first <= p <= r.last)
  }

  function Normalize(r: Range, len: nat): Range {
    var r1 := if r.first == -1 && r.last == -1 then Range(0, len) else r;
    var r2 := if r1.first == -1 then Range(len - r1.last, len - 1) else r1;
    if r2.last == -1 || r2.last >= len then Range(r2.first, len - 1) else r2
  }

  predicate Parsed(r: Range) {
    r.first >= -1 && r.last >= -1
  }

  /**
   A normalized range inside the content covers exactly what was asked for; it falls outside
   exactly when nothing was asked for or more bytes from the end than there are.
   */
  lemma NormalizeMeans(r: Range, len: nat)
    requires Parsed(r)
    ensures InContent(Normalize(r, len), len) ==>
              forall p :: Covers(Normalize(r, len), p) <==> Requested(r, len, p)
    ensures !InContent(Normalize(r, len), len) <==>
              (r.first == -1 && r.last > len) || forall p :: !Requested(r, len, p)
  {
    var n := Normalize(r, len);
    if InContent(n, len) {
      assert Covers(n, n.first);
      assert Requested(r, len, n.first);
    } else if !(r.first == -1 && r.last > len) {
      forall p ensures !Requested(r, len, p) {
      }
    }
  }

  predicate Overlap(a: Range, b: Range) {
    !(a.last < b.first || a.first > b.last)
  }

  lemma OverlapMeans(a: Range, b: Range)
    requires a.first <= a.last && b.first <= b.last
    ensures Overlap(a, b) <==> exists p :: Covers(a, p) && Covers(b, p)
  {
    if Overlap(a, b) {
      var p := if a.first < b.first then b.first else a.first;
      assert Covers(a, p) && Covers(b, p);
    }
  }

  /** How many ranges overlap an earlier one; each of them counts once. */
  function OverlapCount(rs: seq<Range>): nat
    decreases |rs|
  {
    if rs == [] then 0 else
    var n := |rs| - 1;
    OverlapCount(rs[..n]) + if OverlapsSome(rs[..n], rs[n]) then 1 else 0
  }

  predicate OverlapsSome(rs: seq<Range>, r: Range) {
    exists j :: 0 <= j < |rs| && Overlap(r, rs[j])
  }

  function NormalizeAll(rs: seq<Range>, len: nat): (ns: seq<Range>)
    ensures |ns| == |rs| && forall i :: 0 <= i < |rs| ==> ns[i] == Normalize(rs[i], len)
  {
    seq(|rs|, i requires 0 <= i < |rs| => Normalize(rs[i], len))
  }

  predicate AllInContent(rs: seq<Range>, len: nat) {
    forall i :: 0 <= i < |rs| ==> InContent(rs[i], len)
  }

  predicate Acceptable(rs: seq<Range>, len: nat) {
    |rs| <= MAX_COUNT && AllInContent(NormalizeAll(rs, len), len) && OverlapCount(NormalizeAll(rs, len)) <= 2
  }

  /** Range i and an earlier one ask for a common position. */
  ghost predicate SharesWithEarlier(rs: seq<Range>, len: nat, i: nat) {
    i < |rs| && exists j, p :: 0 <= j < i && Requested(rs[i], len, p) && Requested(rs[j], len, p)
  }

  /** Something of the content is asked for, and not more from its end than there is. */
  ghost predicate Satisfiable(r: Range, len: nat) {
    (exists p :: Requested(r, len, p)) && !(r.first == -1 && r.last > len)
  }

  ghost function Sharing(rs: seq<Range>, len: nat): set<nat> {
    set i: nat | i < |rs| && SharesWithEarlier(rs, len, i)
  }

  lemma OverlapsWhenShared(rs: seq<Range>, len: nat, i: nat)
    requires i < |rs| && (forall k :: 0 <= k < |rs| ==> Parsed(rs[k])) && AllInContent(NormalizeAll(rs, len), len)
    ensures OverlapsSome(NormalizeAll(rs, len)[..i], NormalizeAll(rs, len)[i]) <==> SharesWithEarlier(rs, len, i)
  {
    hide Normalize, Requested, Overlap, Covers;
    var ns := NormalizeAll(rs, len);
    forall j | 0 <= j < i
      ensures Overlap(ns[i], ns[j]) <==> exists p :: Requested(rs[i], len, p) && Requested(rs[j], len, p)
    {
      SharedMeans(rs[i], rs[j], len);
    }
    if OverlapsSome(ns[..i], ns[i]) {
      var j :| 0 <= j < i && Overlap(ns[i], ns[..i][j]);
      assert Overlap(ns[i], ns[j]);
    }
    if SharesWithEarlier(rs, len, i) {
      var j, p :| 0 <= j < i && Requested(rs[i], len, p) && Requested(rs[j], len, p);
      assert Overlap(ns[i], ns[..i][j]);
    }
  }

  lemma SharedMeans(a: Range, b: Range, len: nat)
    requires Parsed(a) && Parsed(b) && InContent(Normalize(a, len), len) && InContent(Normalize(b, len), len)
    ensures Overlap(Normalize(a, len), Normalize(b, len)) <==>
            exists p :: Requested(a, len, p) && Requested(b, len, p)
  {
    NormalizeMeans(a, len);
    NormalizeMeans(b, len);
    hide Normalize, Requested, Overlap, Covers;
    OverlapMeans(Normalize(a, len), Normalize(b, len));
  }

  lemma {:induction false} CountIsSharing(rs: seq<Range>, len: nat, n: nat)
    requires n <= |rs| && (forall k :: 0 <= k < |rs| ==> Parsed(rs[k])) && AllInContent(NormalizeAll(rs, len), len)
    ensures OverlapCount(NormalizeAll(rs, len)[..n]) == |set i: nat | i < n && SharesWithEarlier(rs, len, i)|
    decreases n
  {
    hide OverlapsSome, SharesWithEarlier, InContent;
    var ns := NormalizeAll(rs, len);
    if n == 0 {
      assert (set i: nat | i < 0 && SharesWithEarlier(rs, len, i)) == {};
    } else {
      CountIsSharing(rs, len, n - 1);
      OverlapsWhenShared(rs, len, n - 1);
      assert ns[..n][..n - 1] == ns[..n - 1];
      var before := set i: nat | i < n - 1 && SharesWithEarlier(rs, len, i);
      var all := set i: nat | i < n && SharesWithEarlier(rs, len, i);
      if SharesWithEarlier(rs, len, n - 1) {
        assert all == before + {n - 1};
      } else {
        assert all == before;
      }
    }
  }

  /**
   A request's ranges are accepted exactly when there are at most 1024, each can be satisfied, and
   at most two of them share a position with an earlier one.
   */
  lemma AcceptedExactly(rs: seq<Range>, len: nat)
    requires forall i :: 0 <= i < |rs| ==> Parsed(rs[i])
    ensures Acceptable(rs, len) <==>
            |rs| <= 1024 && (forall i :: 0 <= i < |rs| ==> Satisfiable(rs[i], len)) && |Sharing(rs, len)| <= 2
  {
    hide Normalize, Requested, OverlapCount, SharesWithEarlier, Satisfiable, InContent;
    forall i | 0 <= i < |rs| ensures InContent(Normalize(rs[i], len), len) <==> Satisfiable(rs[i], len) {
      SatisfiableMeans(rs[i], len);
    }
    if AllInContent(NormalizeAll(rs, len), len) {
      CountIsSharing(rs, len, |rs|);
      var ns := NormalizeAll(rs, len);
      assert ns[..|rs|] == ns;
    } else {
      assert exists i :: 0 <= i < |rs| && !InContent(NormalizeAll(rs, len)[i], len);
    }
  }

  lemma SatisfiableMeans(r: Range, len: nat)
    requires Parsed(r)
    ensures InContent(Normalize(r, len), len) <==> Satisfiable(r, len)
  {
    NormalizeMeans(r, len);
    hide Normalize;
  }

  predicate SomeCovers(rs: seq<Range>, p: int) {
    exists i :: 0 <= i < |rs| && Covers(rs[i], p)
  }

  predicate SomeRequests(rs: seq<Range>, len: nat, p: int) {
    exists i :: 0 <= i < |rs| && Requested(rs[i], len, p)
  }

  lemma NormalizedCoverRequested(rs: seq<Range>, len: nat, p: int)
    requires (forall i :: 0 <= i < |rs| ==> Parsed(rs[i])) && AllInContent(NormalizeAll(rs, len), len)
    ensures SomeCovers(NormalizeAll(rs, len), p) <==> SomeRequests(rs, len, p)
  {
    var ns := NormalizeAll(rs, len);
    forall i | 0 <= i < |rs| ensures Covers(ns[i], p) <==> Requested(rs[i], len, p) {
      NormalizeMeans(rs[i], len);
      assert InContent(ns[i], len);
    }
    if SomeRequests(rs, len, p) {
      var i :| 0 <= i < |rs| && Requested(rs[i], len, p);
      assert Covers(ns[i], p);
    }
  }

  // ---------- Sorting and merging ----------

  predicate SortedByFirst(rs: seq<Range>) {
    forall i, j :: 0 <= i < j < |rs| ==> rs[i].first <= rs[j].first
  }

  /** Neither overlapping nor adjacent. */
  predicate Separated(rs: seq<Range>) {
    forall i, j :: 0 <= i < j < |rs| ==> rs[i].last + 1 < rs[j].first
  }

  /** One step of the merge: r joins the last range it touches unless it is identical to it. */
  function Add(done: seq<Range>, r: Range): seq<Range> {
    if done == [] then [r] else
    var n := |done| - 1;
    var prev := done[n];
    if r.first <= prev.last + 1 && r != prev then
      done[..n] + [Range(prev.first, if prev.last < r.last then r.last else prev.last)]
    else done + [r]
  }

  function MergeAll(rs: seq<Range>): seq<Range>
    decreases |rs|
  {
    if rs == [] then [] else Add(MergeAll(rs[..|rs| - 1]), rs[|rs| - 1])
  }

  lemma AddCovers(done: seq<Range>, r: Range, p: int)
    requires done != [] ==> done[|done| - 1].first <= r.first && done[|done| - 1].first <= done[|done| - 1].last
    ensures SomeCovers(Add(done, r), p) <==> SomeCovers(done, p) || Covers(r, p)
  {
    var added, n := Add(done, r), |done| - 1;
    if done != [] && r.first <= done[n].last + 1 && r != done[n] {
      assert forall i :: 0 <= i < n ==> added[i] == done[i];
      assert Covers(added[n], p) <==> Covers(done[n], p) || Covers(r, p);
      if SomeCovers(done, p) || Covers(r, p) {
        if Covers(added[n], p) {
        } else {
          var i :| 0 <= i < |done| && Covers(done[i], p);
          assert Covers(added[i], p);
        }
      }
    } else {
      assert added == done + [r];
      assert added[|done|] == r;
      if SomeCovers(done, p) {
        var i :| 0 <= i < |done| && Covers(done[i], p);
        assert Covers(added[i], p);
      }
    }
  }

  /** Where a merge of sorted ranges stands: sorted itself, inside the content, and not beyond the last range taken. */
  lemma {:induction false} MergeKeeps(rs: seq<Range>, len: nat)
    requires SortedByFirst(rs) && AllInContent(rs, len)
    ensures SortedByFirst(MergeAll(rs)) && AllInContent(MergeAll(rs), len)
    ensures rs == [] <==> MergeAll(rs) == []
    ensures rs != [] ==> MergeAll(rs)[|MergeAll(rs)| - 1].first <= rs[|rs| - 1].first
    decreases |rs|
  {
    hide SortedByFirst, AllInContent, InContent, Add;
    if rs != [] {
      SortedInParts(rs, len);
      MergeKeeps(rs[..|rs| - 1], len);
      AddKeeps(MergeAll(rs[..|rs| - 1]), rs[|rs| - 1], len);
    }
  }

  lemma SortedInParts(rs: seq<Range>, len: nat)
    requires rs != [] && SortedByFirst(rs) && AllInContent(rs, len)
    ensures var n := |rs| - 1;
            && SortedByFirst(rs[..n]) && AllInContent(rs[..n], len)
            && (n > 0 ==> rs[..n][n - 1].first <= rs[n].first) && InContent(rs[n], len)
  {
  }

  lemma AddKeeps(done: seq<Range>, r: Range, len: nat)
    requires SortedByFirst(done) && AllInContent(done, len) && InContent(r, len)
    requires done != [] ==> done[|done| - 1].first <= r.first
    ensures SortedByFirst(Add(done, r)) && AllInContent(Add(done, r), len)
    ensures Add(done, r) != [] && Add(done, r)[|Add(done, r)| - 1].first <= r.first
  {
    var added, n := Add(done, r), |done| - 1;
    assert forall i :: 0 <= i < n ==> added[i] == done[i];
    assert forall i :: 0 <= i < |done| ==> done[i].first <= r.first;
    assert forall i :: 0 <= i < |done| ==> added[i].first == done[i].first;
  }

  lemma {:induction false} MergeCovers(rs: seq<Range>, len: nat, p: int)
    requires SortedByFirst(rs) && AllInContent(rs, len)
    ensures SomeCovers(MergeAll(rs), p) <==> SomeCovers(rs, p)
    decreases |rs|
  {
    if rs != [] {
      var n := |rs| - 1;
      MergeCovers(rs[..n], len, p);
      MergeKeeps(rs[..n], len);
      AddCovers(MergeAll(rs[..n]), rs[n], p);
      assert rs == rs[..n] + [rs[n]];
      if SomeCovers(rs[..n], p) {
        var i :| 0 <= i < n && Covers(rs[..n][i], p);
        assert Covers(rs[i], p);
      }
    }
  }

  // ---------- When the result is separated ----------

  /** Some range starts before r and overlaps or touches it. */
  predicate Reaches(rs: seq<Range>, r: Range) {
    exists s :: s in rs && s.first < r.first <= s.last + 1
  }

  /** Every range that is asked for twice is reached by one that starts before it. */
  predicate RepeatsReached(rs: seq<Range>) {
    forall r :: r in rs && multiset(rs)[r] >= 2 ==> Reaches(rs, r)
  }

  /** No two different ranges start at the same position. */
  predicate NoTies(rs: seq<Range>) {
    forall r, s :: r in rs && s in rs && r.first == s.first ==> r == s
  }

  /** Behind these ranges, r repeats one of them, none reaches it and none that starts with it is longer. */
  predicate Stays(rs: seq<Range>, r: Range) {
    r in rs && !Reaches(rs, r) && forall s :: s in rs && s.first == r.first ==> s.last <= r.last
  }

  predicate SomeStays(rs: seq<Range>) {
    exists j :: 0 <= j < |rs| && Stays(rs[..j], rs[j])
  }

  function Last(rs: seq<Range>): Range
    requires rs != []
  {
    rs[|rs| - 1]
  }

  /** What the last merged range says about the sorted ranges merged so far. */
  ghost predicate EndsIn(rs: seq<Range>, m: Range) {
    && (exists s :: s in rs && s.last == m.last && m.first <= s.first)
    && (forall s :: s in rs ==> s.last <= m.last)
    && (forall s :: s in rs && s.first < m.first ==> s.last + 1 < m.first)
    && (forall s :: s in rs && s.first > m.first ==> Reaches(rs, s))
  }

  lemma EndsInOne(r: Range)
    ensures EndsIn([r], r)
  {
    assert r in [r];
  }

  lemma ReachesMore(rs: seq<Range>, r: Range)
    ensures forall s :: Reaches(rs, s) ==> Reaches(rs + [r], s)
  {
    forall s | Reaches(rs, s) ensures Reaches(rs + [r], s) {
      var w :| w in rs && w.first < s.first <= w.last + 1;
      assert w in rs + [r];
    }
  }

  lemma EndsInNext(rs: seq<Range>, m: Range, r: Range, next: Range)
    requires EndsIn(rs, m) && m.first <= m.last && r.first <= r.last && m.first <= r.first
    requires forall s :: s in rs ==> s.first <= r.first
    requires next == if r.first > m.last + 1 || r == m then r
             else Range(m.first, if m.last < r.last then r.last else m.last)
    ensures EndsIn(rs + [r], next)
  {
    hide Reaches, EndsIn;
    ReachesMore(rs, r);
    if r.first > m.last + 1 {
      EndsInNew(rs, m, r);
    } else {
      if r.first > m.first {
        ReachedByMerged(rs, m, r);
      }
      EndsInMerged(rs, m, r, next);
    }
  }

  lemma EndsInNew(rs: seq<Range>, m: Range, r: Range)
    requires EndsIn(rs, m) && r.first <= r.last && m.last + 1 < r.first
    requires forall s :: s in rs ==> s.first <= r.first
    ensures EndsIn(rs + [r], r)
  {
    hide Reaches;
    assert r in rs + [r];
    assert forall s :: s in rs + [r] ==> s in rs || s == r;
  }

  lemma ReachedByMerged(rs: seq<Range>, m: Range, r: Range)
    requires EndsIn(rs, m) && m.first < r.first <= m.last + 1
    requires forall s :: s in rs ==> s.first <= r.first
    ensures Reaches(rs + [r], r)
  {
    var w :| w in rs && w.last == m.last && m.first <= w.first;
    if w.first == r.first {
      assert Reaches(rs, w);
      var v :| v in rs && v.first < w.first <= v.last + 1;
      assert v in rs + [r];
    } else {
      assert w in rs + [r];
    }
  }

  lemma EndsInMerged(rs: seq<Range>, m: Range, r: Range, next: Range)
    requires EndsIn(rs, m) && m.first <= r.first
    requires next == Range(m.first, if m.last < r.last then r.last else m.last)
    requires r.first > m.first ==> Reaches(rs + [r], r)
    requires forall s :: Reaches(rs, s) ==> Reaches(rs + [r], s)
    ensures EndsIn(rs + [r], next)
  {
    hide Reaches;
    var all := rs + [r];
    var w :| w in rs && w.last == m.last && m.first <= w.first;
    assert w in all && r in all;
    assert forall s :: s in all ==> s in rs || s == r;
  }

  /** The identity test of the merge succeeds exactly when r stays. */
  lemma IdenticalExactly(rs: seq<Range>, m: Range, r: Range)
    requires EndsIn(rs, m) && m.first <= r.first
    requires forall s :: s in rs ==> s.first <= r.first
    ensures r == m <==> Stays(rs, r)
  {
    var w :| w in rs && w.last == m.last && m.first <= w.first;
    if r == m {
      assert w.first == r.first;
      assert w == r;
    }
  }

  lemma {:induction false} MergeEndsIn(rs: seq<Range>, len: nat)
    requires rs != [] && SortedByFirst(rs) && AllInContent(rs, len)
    ensures MergeAll(rs) != [] && EndsIn(rs, Last(MergeAll(rs)))
    decreases |rs|
  {
    hide SortedByFirst, AllInContent, InContent, EndsIn, Add;
    MergeKeeps(rs, len);
    var n := |rs| - 1;
    assert rs == rs[..n] + [rs[n]];
    SortedInParts(rs, len);
    if n == 0 {
      MergeOne(rs);
      EndsInOne(rs[0]);
    } else {
      MergeEndsIn(rs[..n], len);
      MergeKeeps(rs[..n], len);
      NextEndsIn(rs[..n], MergeAll(rs[..n]), rs[n], len);
    }
  }

  lemma MergeOne(rs: seq<Range>)
    requires |rs| == 1
    ensures MergeAll(rs) == rs == [rs[0]]
  {
    assert rs == [rs[0]] && rs[..0] == [];
  }

  lemma NextEndsIn(rs: seq<Range>, done: seq<Range>, r: Range, len: nat)
    requires rs != [] && SortedByFirst(rs) && Last(rs).first <= r.first && InContent(r, len)
    requires done != [] && AllInContent(done, len) && Last(done).first <= Last(rs).first && EndsIn(rs, Last(done))
    ensures Add(done, r) != [] && EndsIn(rs + [r], Last(Add(done, r)))
  {
    hide EndsIn;
    AllBefore(rs, r);
    EndsInNext(rs, Last(done), r, Last(Add(done, r)));
  }

  lemma AllBefore(rs: seq<Range>, r: Range)
    requires rs != [] && SortedByFirst(rs) && Last(rs).first <= r.first
    ensures forall s :: s in rs ==> s.first <= r.first
  {
  }

  /** For a sorted arrangement: the result is separated exactly when no range stays beside its like. */
  lemma {:induction false} MergeSeparatesExactly(rs: seq<Range>, len: nat)
    requires SortedByFirst(rs) && AllInContent(rs, len)
    ensures Separated(MergeAll(rs)) <==> !SomeStays(rs)
    decreases |rs|
  {
    hide SortedByFirst, AllInContent, InContent, Separated, Add, Stays, SomeStays, EndsIn;
    if rs == [] {
      SeparateNone();
    } else {
      var n := |rs| - 1;
      SortedInParts(rs, len);
      SomeStaysSnoc(rs);
      MergeSeparatesExactly(rs[..n], len);
      if n == 0 {
        SeparateNone();
        assert rs[..0] == [];
        SeparateOne(rs);
      } else {
        MergeKeeps(rs[..n], len);
        MergeEndsIn(rs[..n], len);
        AllBefore(rs[..n], rs[n]);
        IdenticalExactly(rs[..n], Last(MergeAll(rs[..n])), rs[n]);
        AddSeparatesExactly(MergeAll(rs[..n]), rs[n], len);
      }
    }
  }

  lemma SomeStaysSnoc(rs: seq<Range>)
    requires rs != []
    ensures SomeStays(rs) <==> SomeStays(rs[..|rs| - 1]) || Stays(rs[..|rs| - 1], Last(rs))
  {
    hide Stays;
    var n := |rs| - 1;
    forall j | 0 <= j < n ensures rs[..n][..j] == rs[..j] {
    }
    if SomeStays(rs[..n]) {
      var j :| 0 <= j < n && Stays(rs[..n][..j], rs[..n][j]);
      assert Stays(rs[..j], rs[j]);
    }
    if SomeStays(rs) && !Stays(rs[..n], rs[n]) {
      var j :| 0 <= j < |rs| && Stays(rs[..j], rs[j]);
      assert Stays(rs[..n][..j], rs[..n][j]);
    }
  }

  lemma SeparateNone()
    ensures Separated(MergeAll([])) && !SomeStays([])
  {
  }

  lemma SeparateOne(rs: seq<Range>)
    requires |rs| == 1
    ensures Separated(MergeAll(rs)) && !Stays(rs[..0], rs[0])
  {
    MergeOne(rs);
  }

  lemma AddSeparatesExactly(done: seq<Range>, r: Range, len: nat)
    requires done != [] && AllInContent(done, len) && Last(done).first <= r.first
    ensures Separated(Add(done, r)) <==> Separated(done) && r != Last(done)
  {
    var added, n := Add(done, r), |done| - 1;
    if r == Last(done) {
      assert added[n] == r && added[n + 1] == r;
      assert InContent(done[n], len);
    } else if Separated(done) {
      AddSeparates(done, r);
    } else {
      var i, j :| 0 <= i < j < |done| && !(done[i].last + 1 < done[j].first);
      assert added[i] == done[i] && added[j].first == done[j].first;
    }
  }

  lemma AddSeparates(done: seq<Range>, r: Range)
    requires done != [] && Separated(done) && r != done[|done| - 1]
    requires forall i :: 0 <= i < |done| ==> done[i].first <= done[i].last
    requires done[|done| - 1].first <= r.first
    ensures Separated(Add(done, r))
  {
    var added, n := Add(done, r), |done| - 1;
    assert forall i :: 0 <= i < n ==> added[i] == done[i];
    assert forall i :: 0 <= i < n ==> done[i].last + 1 < done[n].first;
  }

  // ---------- The operations ----------

  predicate Permutation(a: seq<Range>, b: seq<Range>) {
    multiset(a) == multiset(b)
  }

  lemma PermutationKeeps(a: seq<Range>, b: seq<Range>, len: nat)
    requires Permutation(a, b)
    ensures |a| == |b|
    ensures AllInContent(a, len) ==> AllInContent(b, len)
    ensures forall p :: SomeCovers(a, p) ==> SomeCovers(b, p)
  {
    assert |multiset(a)| == |multiset(b)|;
    forall i | 0 <= i < |b| ensures b[i] in a {
      assert b[i] in multiset(b);
    }
    forall p | SomeCovers(a, p) ensures SomeCovers(b, p) {
      var i :| 0 <= i < |a| && Covers(a[i], p);
      assert a[i] in multiset(a);
      assert a[i] in b;
    }
  }

  function InsertByFirst(rs: seq<Range>, r: Range): seq<Range>
    decreases |rs|
  {
    if rs == [] || rs[|rs| - 1].first <= r.first then rs + [r]
    else InsertByFirst(rs[..|rs| - 1], r) + [rs[|rs| - 1]]
  }

  lemma {:induction false} InsertSorts(rs: seq<Range>, r: Range)
    requires SortedByFirst(rs)
    ensures SortedByFirst(InsertByFirst(rs, r))
    ensures multiset(InsertByFirst(rs, r)) == multiset(rs) + multiset{r}
    decreases |rs|
  {
    if rs != [] {
      var n := |rs| - 1;
      assert rs == rs[..n] + [rs[n]];
      if rs[n].first > r.first {
        InsertSorts(rs[..n], r);
        BoundedLast(InsertByFirst(rs[..n], r), rs[..n], r, rs[n]);
      } else {
        SortedSnoc(rs, r);
      }
    }
  }

  lemma SortedSnoc(rs: seq<Range>, r: Range)
    requires SortedByFirst(rs) && forall i :: 0 <= i < |rs| ==> rs[i].first <= r.first
    ensures SortedByFirst(rs + [r])
  {
  }

  lemma BoundedLast(ins: seq<Range>, rs: seq<Range>, r: Range, last: Range)
    requires SortedByFirst(ins) && multiset(ins) == multiset(rs) + multiset{r}
    requires r.first <= last.first && forall i :: 0 <= i < |rs| ==> rs[i].first <= last.first
    ensures SortedByFirst(ins + [last])
  {
    forall i | 0 <= i < |ins| ensures ins[i].first <= last.first {
      assert ins[i] in multiset(ins);
      assert ins[i] in rs || ins[i] == r;
    }
    SortedSnoc(ins, last);
  }

  /** Some sorted arrangement: which of two ranges with the same first position comes first is not fixed. */
  method SortRanges(rs: seq<Range>) returns (sorted: seq<Range>)
    ensures SortedByFirst(sorted) && Permutation(rs, sorted)
  {
    sorted := [];
    for i := 0 to |rs|
      invariant SortedByFirst(sorted) && multiset(sorted) == multiset(rs[..i])
    {
      InsertSorts(sorted, rs[i]);
      assert rs[..i + 1] == rs[..i] + [rs[i]];
      sorted := InsertByFirst(sorted, rs[i]);
    }
    assert rs[..|rs|] == rs;
  }

  /** The request's ranges, replaced by the operations that take it by reference. */
  class Request {
    var ranges: seq<Range>

    constructor (rs: seq<Range>)
      ensures ranges == rs
    {
      ranges := rs;
    }

    method CoalesceRanges(len: nat)
      requires AllInContent(ranges, len)
      modifies this
      ensures AllInContent(ranges, len) && SortedByFirst(ranges)
      ensures forall p :: SomeCovers(ranges, p) <==> SomeCovers(old(ranges), p)
      ensures RepeatsReached(old(ranges)) ==> Separated(ranges)
      ensures NoTies(old(ranges)) ==> (Separated(ranges) <==> RepeatsReached(old(ranges)))
    {
      if |ranges| <= 1 {
        FewAreReached(ranges);
        return;
      }
      var sorted := SortRanges(ranges);
      PermutationKeeps(ranges, sorted, len);
      PermutationKeeps(sorted, ranges, len);
      ranges := Coalesce(sorted, len);
      AllKept(sorted, len);
      MergeKeeps(sorted, len);
      forall p ensures SomeCovers(ranges, p) <==> SomeCovers(sorted, p) {
        MergeCovers(sorted, len, p);
      }
      MergeSeparatesExactly(sorted, len);
      StaysWhenNotReached(old(ranges), sorted);
    }

    /** True when the request is refused; otherwise the ranges are ready to be served. */
    method RangeError(status: int, len: nat) returns (error: bool)
      requires forall i :: 0 <= i < |ranges| ==> Parsed(ranges[i])
      modifies this
      ensures var asked := old(ranges);
              var applies := asked != [] && 200 <= status < 300;
              && (error <==> applies && !Acceptable(asked, len))
              && (!applies ==> ranges == asked)
              && (applies && !error ==>
                    && AllInContent(ranges, len) && SortedByFirst(ranges)
                    && (forall p :: SomeCovers(ranges, p) <==> SomeRequests(asked, len, p))
                    && (RepeatsReached(NormalizeAll(asked, len)) ==> Separated(ranges))
                    && (NoTies(NormalizeAll(asked, len)) ==>
                          (Separated(ranges) <==> RepeatsReached(NormalizeAll(asked, len)))))
    {
      if ranges == [] || status < 200 || 300 <= status {
        return false;
      }
      if |ranges| > MAX_COUNT {
        return true;
      }
      ghost var asked := ranges;
      error := CheckEach(len);
      if !error {
        CoalesceRanges(len);
        forall p ensures SomeCovers(ranges, p) <==> SomeRequests(asked, len, p) {
          NormalizedCoverRequested(asked, len, p);
        }
      }
    }

    /** Replaces the ranges one by one and checks each against the content and the ones before it. */
    method CheckEach(len: nat) returns (error: bool)
      modifies this
      ensures var all := NormalizeAll(old(ranges), len);
              && (error <==> !AllInContent(all, len) || OverlapCount(all) > 2)
              && (!error ==> ranges == all)
    {
      hide Normalize, InContent, OverlapCount, OverlapsSome, Overlap, Replaced, Passed;
      ghost var asked, all := ranges, NormalizeAll(ranges, len);
      var count := 0;
      NothingReplaced(all, asked, len);
      for i := 0 to |ranges|
        invariant |ranges| == |asked| && ranges == Replaced(all, asked, i)
        invariant Passed(all, i, len, count) && count <= 2
      {
        OneReplaced(all, asked, i);
        OnePassed(all, i, len, count);
        var r := Normalize(ranges[i], len);
        ranges := ranges[i := r];
        if !InContent(r, len) {
          return true;
        }
        var overlaps := FindOverlap(ranges[..i], r);
        if overlaps {
          count := count + 1;
          if count > 2 {
            TooManyOverlaps(all, i + 1, len, count);
            return true;
          }
        }
      }
      AllReplaced(all, asked, len, count);
      return false;
    }
  }

  /** The first i ranges replaced, the others as they were asked for. */
  ghost function Replaced(all: seq<Range>, asked: seq<Range>, i: nat): seq<Range>
    requires i <= |all| == |asked|
  {
    all[..i] + asked[i..]
  }

  ghost predicate Passed(all: seq<Range>, i: nat, len: nat, count: nat)
    requires i <= |all|
  {
    AllInContent(all[..i], len) && count == OverlapCount(all[..i])
  }

  lemma NothingReplaced(all: seq<Range>, asked: seq<Range>, len: nat)
    requires |all| == |asked|
    ensures Replaced(all, asked, 0) == asked && Passed(all, 0, len, 0)
  {
    assert all[..0] == [];
  }

  lemma OneReplaced(all: seq<Range>, asked: seq<Range>, i: nat)
    requires i < |all| == |asked|
    ensures |Replaced(all, asked, i)| == |asked| && Replaced(all, asked, i)[i] == asked[i]
    ensures Replaced(all, asked, i)[i := all[i]] == Replaced(all, asked, i + 1)
    ensures |Replaced(all, asked, i + 1)| == |asked| && Replaced(all, asked, i + 1)[..i] == all[..i]
  {
  }

  lemma OnePassed(all: seq<Range>, i: nat, len: nat, count: nat)
    requires i < |all| && Passed(all, i, len, count)
    ensures !InContent(all[i], len) ==> !AllInContent(all, len)
    ensures InContent(all[i], len) ==> Passed(all, i + 1, len, count + if OverlapsSome(all[..i], all[i]) then 1 else 0)
  {
    hide OverlapsSome, InContent;
    assert all[..i + 1][..i] == all[..i];
  }

  lemma TooManyOverlaps(all: seq<Range>, i: nat, len: nat, count: nat)
    requires i <= |all| && Passed(all, i, len, count) && count > 2
    ensures OverlapCount(all) > 2
  {
    hide InContent, OverlapsSome;
    OverlapsGrow(all, i);
  }

  lemma AllReplaced(all: seq<Range>, asked: seq<Range>, len: nat, count: nat)
    requires |all| == |asked| && Passed(all, |all|, len, count)
    ensures Replaced(all, asked, |all|) == all && AllInContent(all, len) && OverlapCount(all) == count
  {
    hide InContent, OverlapCount;
    assert all[..|all|] == all;
  }

  method FindOverlap(processed: seq<Range>, r: Range) returns (overlaps: bool)
    ensures overlaps == OverlapsSome(processed, r)
  {
    for j := 0 to |processed|
      invariant forall k :: 0 <= k < j ==> !Overlap(r, processed[k])
    {
      if Overlap(r, processed[j]) {
        return true;
      }
    }
    return false;
  }

  lemma {:induction false} OverlapsGrow(rs: seq<Range>, i: nat)
    requires i <= |rs|
    ensures OverlapCount(rs[..i]) <= OverlapCount(rs)
    decreases |rs| - i
  {
    if i < |rs| {
      assert rs[..i + 1][..i] == rs[..i];
      OverlapsGrow(rs, i + 1);
    } else {
      assert rs[..i] == rs;
    }
  }

  lemma FewAreReached(rs: seq<Range>)
    requires |rs| <= 1
    ensures RepeatsReached(rs) && Separated(rs)
  {
    assert rs != [] ==> rs == [rs[0]];
  }

  lemma SameMembers(a: seq<Range>, b: seq<Range>)
    requires Permutation(a, b)
    ensures forall r :: r in a <==> r in b
  {
    forall r ensures r in a <==> r in b {
      assert r in a <==> r in multiset(a);
      assert r in b <==> r in multiset(b);
    }
  }

  /** A range that stays is a repeated one that nothing reaches; without ties every such range does stay. */
  lemma StaysWhenNotReached(rs: seq<Range>, sorted: seq<Range>)
    requires Permutation(rs, sorted) && SortedByFirst(sorted)
    ensures SomeStays(sorted) ==> !RepeatsReached(rs)
    ensures NoTies(rs) && !RepeatsReached(rs) ==> SomeStays(sorted)
  {
    hide SomeStays, RepeatsReached, NoTies, SortedByFirst;
    SameConditions(rs, sorted);
    if SomeStays(sorted) {
      StaysNotReached(sorted);
    }
    if NoTies(sorted) && !RepeatsReached(sorted) {
      NotReachedStays(sorted);
    }
  }

  lemma SameConditions(a: seq<Range>, b: seq<Range>)
    requires Permutation(a, b)
    ensures RepeatsReached(a) <==> RepeatsReached(b)
    ensures NoTies(a) <==> NoTies(b)
  {
    SameMembers(a, b);
    assert forall r :: Reaches(a, r) <==> Reaches(b, r);
    hide Reaches;
  }

  lemma StaysNotReached(sorted: seq<Range>)
    requires SortedByFirst(sorted) && SomeStays(sorted)
    ensures !RepeatsReached(sorted)
  {
    hide SortedByFirst;
    var j :| 0 <= j < |sorted| && Stays(sorted[..j], sorted[j]);
    TwiceInAll(sorted, j);
    ReachedFromBefore(sorted, j);
  }

  lemma TwiceInAll(rs: seq<Range>, j: nat)
    requires j < |rs| && rs[j] in rs[..j]
    ensures rs[j] in rs && multiset(rs)[rs[j]] >= 2
  {
    assert rs == rs[..j] + ([rs[j]] + rs[j + 1..]);
  }

  lemma ReachedFromBefore(sorted: seq<Range>, j: nat)
    requires SortedByFirst(sorted) && j < |sorted|
    ensures Reaches(sorted, sorted[j]) ==> Reaches(sorted[..j], sorted[j])
  {
    var r := sorted[j];
    if Reaches(sorted, r) {
      var s :| s in sorted && s.first < r.first <= s.last + 1;
      var k :| 0 <= k < |sorted| && sorted[k] == s;
      assert sorted[..j][k] == s;
    }
  }

  lemma NotReachedStays(sorted: seq<Range>)
    requires SortedByFirst(sorted) && NoTies(sorted) && !RepeatsReached(sorted)
    ensures SomeStays(sorted)
  {
    var r :| r in sorted && multiset(sorted)[r] >= 2 && !Reaches(sorted, r);
    var i, j := TwoPlaces(sorted, r);
    assert sorted[..j][i] == r;
    assert forall s :: s in sorted[..j] ==> s in sorted;
    assert Stays(sorted[..j], sorted[j]);
  }

  lemma {:induction false} TwoPlaces(rs: seq<Range>, r: Range) returns (i: nat, j: nat)
    requires multiset(rs)[r] >= 2
    ensures i < j < |rs| && rs[i] == rs[j] == r
    decreases |rs|
  {
    var n := |rs| - 1;
    assert rs == rs[..n] + [rs[n]];
    if rs[n] == r {
      assert r in rs[..n];
      i :| 0 <= i < n && rs[..n][i] == r;
      j := n;
    } else {
      i, j := TwoPlaces(rs[..n], r);
    }
  }

  // Ties: two copies of a range that nothing reaches can be put first among those that start with them.

  lemma {:induction false} Arrange(rs: seq<Range>) returns (sorted: seq<Range>)
    ensures SortedByFirst(sorted) && Permutation(rs, sorted)
    decreases |rs|
  {
    if rs == [] {
      sorted := [];
    } else {
      var n := |rs| - 1;
      assert rs == rs[..n] + [rs[n]];
      var before := Arrange(rs[..n]);
      InsertSorts(before, rs[n]);
      sorted := InsertByFirst(before, rs[n]);
    }
  }

  lemma WithoutTwo(rs: seq<Range>, r: Range) returns (rest: seq<Range>)
    requires multiset(rs)[r] >= 2
    ensures multiset(rs) == multiset(rest) + multiset{r, r}
  {
    var i, j := TwoPlaces(rs, r);
    rest := rs[..i] + rs[i + 1..j] + rs[j + 1..];
    assert rs == rs[..i] + [r] + rs[i + 1..j] + [r] + rs[j + 1..];
  }

  lemma {:induction false} PlaceFor(sorted: seq<Range>, first: int) returns (p: nat)
    requires SortedByFirst(sorted)
    ensures p <= |sorted|
    ensures forall k :: 0 <= k < p ==> sorted[k].first < first
    ensures forall k :: p <= k < |sorted| ==> first <= sorted[k].first
    decreases |sorted|
  {
    if sorted == [] || Last(sorted).first < first {
      p := |sorted|;
    } else {
      p := PlaceFor(sorted[..|sorted| - 1], first);
    }
  }

  lemma PairFirst(rs: seq<Range>, r: Range) returns (sorted: seq<Range>, p: nat)
    requires multiset(rs)[r] >= 2
    ensures SortedByFirst(sorted) && Permutation(rs, sorted)
    ensures p + 1 < |sorted| && sorted[p] == sorted[p + 1] == r
    ensures forall k :: 0 <= k < p ==> sorted[k].first < r.first
  {
    hide SortedByFirst;
    var rest := WithoutTwo(rs, r);
    var others := Arrange(rest);
    p := PlaceFor(others, r.first);
    sorted := others[..p] + [r, r] + others[p..];
    PairMembers(others, p, r);
    PairPlaced(others, p, r);
  }

  lemma PairMembers(others: seq<Range>, p: nat, r: Range)
    requires p <= |others|
    ensures multiset(others[..p] + [r, r] + others[p..]) == multiset(others) + multiset{r, r}
  {
    assert others == others[..p] + others[p..];
  }

  lemma PairPlaced(others: seq<Range>, p: nat, r: Range)
    requires p <= |others| && SortedByFirst(others)
    requires forall k :: 0 <= k < p ==> others[k].first < r.first
    requires forall k :: p <= k < |others| ==> r.first <= others[k].first
    ensures var sorted := others[..p] + [r, r] + others[p..];
            && SortedByFirst(sorted) && sorted[p] == sorted[p + 1] == r
            && forall k :: 0 <= k < p ==> sorted[k].first < r.first
  {
    var sorted := others[..p] + [r, r] + others[p..];
    assert forall k :: 0 <= k < p ==> sorted[k] == others[k];
    assert forall k :: p + 2 <= k < |sorted| ==> sorted[k] == others[k - 2];
  }

  lemma SomeArrangementStays(rs: seq<Range>) returns (sorted: seq<Range>)
    requires !RepeatsReached(rs)
    ensures SortedByFirst(sorted) && Permutation(rs, sorted) && SomeStays(sorted)
  {
    var r :| r in rs && multiset(rs)[r] >= 2 && !Reaches(rs, r);
    var p;
    sorted, p := PairFirst(rs, r);
    SameMembers(rs, sorted);
    FirstPairStays(rs, sorted, r, p);
  }

  lemma FirstPairStays(rs: seq<Range>, sorted: seq<Range>, r: Range, p: nat)
    requires p + 1 < |sorted| && sorted[p] == sorted[p + 1] == r
    requires forall k :: 0 <= k < p ==> sorted[k].first < r.first
    requires !Reaches(rs, r) && forall s :: s in sorted ==> s in rs
    ensures SomeStays(sorted)
  {
    var before := sorted[..p + 1];
    assert before[p] == r;
    forall s | s in before ensures s in rs && (s.first == r.first ==> s == r) {
      var k :| 0 <= k < p + 1 && before[k] == s;
      assert sorted[k] == s;
    }
    assert Stays(sorted[..p + 1], sorted[p + 1]);
  }

  /**
   Sorting does not fix the order of ranges that start at the same position.  Whichever it
   is, the result is separated, exactly when every repeated range is reached by an earlier one.
   */
  lemma SeparatedHoweverSorted(rs: seq<Range>, len: nat)
    requires AllInContent(rs, len)
    ensures RepeatsReached(rs) <==>
            forall sorted :: Permutation(rs, sorted) && SortedByFirst(sorted) ==> Separated(MergeAll(sorted))
  {
    hide RepeatsReached, SortedByFirst, AllInContent, SomeStays, Separated, NoTies, MergeAll;
    if RepeatsReached(rs) {
      forall sorted | Permutation(rs, sorted) && SortedByFirst(sorted) ensures Separated(MergeAll(sorted)) {
        PermutationKeeps(rs, sorted, len);
        StaysWhenNotReached(rs, sorted);
        MergeSeparatesExactly(sorted, len);
      }
    } else {
      var sorted := SomeArrangementStays(rs);
      PermutationKeeps(rs, sorted, len);
      MergeSeparatesExactly(sorted, len);
    }
  }

  /** The ranges that are not skipped. */
  function Kept(rs: seq<Range>, len: nat): seq<Range>
    decreases |rs|
  {
    if rs == [] then [] else
    var n := |rs| - 1;
    Kept(rs[..n], len) + if InContent(Normalize(rs[n], len), len) then [Normalize(rs[n], len)] else []
  }

  lemma {:induction false} AllKept(rs: seq<Range>, len: nat)
    requires AllInContent(rs, len)
    ensures Kept(rs, len) == rs
    decreases |rs|
  {
    if rs != [] {
      AllKept(rs[..|rs| - 1], len);
    }
  }

  lemma MergeNothing(sorted: seq<Range>, len: nat)
    ensures MergeAll(Kept(sorted[..0], len)) == []
  {
  }

  lemma MergeNext(sorted: seq<Range>, i: nat, len: nat)
    requires i < |sorted|
    ensures var r, done := Normalize(sorted[i], len), MergeAll(Kept(sorted[..i], len));
            MergeAll(Kept(sorted[..i + 1], len)) == if InContent(r, len) then Add(done, r) else done
  {
    hide Normalize, InContent, Add;
    var r, kept := Normalize(sorted[i], len), Kept(sorted[..i], len);
    assert sorted[..i + 1][..i] == sorted[..i];
    if InContent(r, len) {
      assert Kept(sorted[..i + 1], len) == kept + [r];
      assert (kept + [r])[..|kept|] == kept;
    } else {
      assert Kept(sorted[..i + 1], len) == kept + [] == kept;
    }
  }

  method Coalesce(sorted: seq<Range>, len: nat) returns (coalesced: seq<Range>)
    ensures coalesced == MergeAll(Kept(sorted, len))
  {
    hide Normalize, InContent, Kept, MergeAll;
    coalesced := [];
    MergeNothing(sorted, len);
    for i := 0 to |sorted|
      invariant coalesced == MergeAll(Kept(sorted[..i], len))
    {
      var r := Normalize(sorted[i], len);
      MergeNext(sorted, i, len);
      if !InContent(r, len) {
        continue;
      }
      if coalesced != [] {
        var n := |coalesced| - 1;
        var prev := coalesced[n];
        if r.first <= prev.last + 1 && !(r.first == prev.first && r.last == prev.last) {
          coalesced := coalesced[n := Range(prev.first, if prev.last < r.last then r.last else prev.last)];
          continue;
        }
      }
      coalesced := coalesced + [r];
    }
    assert sorted[..|sorted|] == sorted;
  }

  /** Offset and length of a range that has passed: inside the content, and the same positions. */
  function OffsetAndLength(r: Range, len: nat): (p: (nat, nat))
    requires InContent(r, len)
    ensures p.1 > 0 && p.0 + p.1 <= len
    ensures forall x :: p.0 <= x < p.0 + p.1 <==> Covers(r, x)
  {
    (r.first, r.last - r.first + 1)
  }
}

/** The leftmost occurrence of one sequence in another. */
module Searching {
  import opened Options

  predicate Occurs<T(==)>(t: seq<T>, s: seq<T>, i: nat) {
    i + |s| <= |t| && t[i..i + |s|] == s
  }

  predicate NoneBefore<T(==)>(t: seq<T>, s: seq<T>, n: nat) {
    forall i :: 0 <= i < n ==> !Occurs(t, s, i)
  }

  /** The first occurrence of s, not earlier than from. */
  function Search<T(==)>(t: seq<T>, s: seq<T>, from: nat): (r: Option<nat>)
    ensures r.Some? ==> Occurs(t, s, r.value) && from <= r.value && forall i :: from <= i < r.value ==> !Occurs(t, s, i)
    ensures r.None? ==> forall i :: from <= i ==> !Occurs(t, s, i)
    decreases |t| - from
  {
    if from + |s| > |t| then None
    else if Occurs(t, s, from) then Some(from)
    else Search(t, s, from + 1)
  }

  lemma SearchIs<T>(t: seq<T>, s: seq<T>, n: nat)
    requires NoneBefore(t, s, n)
    ensures Occurs(t, s, n) ==> Search(t, s, 0) == Some(n)
    ensures |t| < n + |s| ==> Search(t, s, 0) == None
  {
  }

  lemma OccursBehind<T>(a: seq<T>, c: seq<T>, s: seq<T>, i: nat)
    ensures Occurs(a + c, s, |a| + i) <==> Occurs(c, s, i)
  {
    if i + |s| <= |c| {
      assert (a + c)[|a| + i..|a| + i + |s|] == c[i..i + |s|];
    }
  }

  /** Searching from behind a prefix is searching the rest. */
  lemma SearchBehind<T>(a: seq<T>, c: seq<T>, s: seq<T>)
    ensures Search(a + c, s, |a|) == match Search(c, s, 0) case None => None case Some(p) => Some(|a| + p)
  {
    hide Occurs, Search;
    var whole, part := Search(a + c, s, |a|), Search(c, s, 0);
    if part.Some? {
      OccursBehind(a, c, s, part.value);
    }
    if whole.Some? {
      OccursBehind(a, c, s, whole.value - |a|);
    }
  }

  lemma OccursOne<T>(t: seq<T>, c: T, i: nat)
    ensures Occurs(t, [c], i) <==> i < |t| && t[i] == c
  {
    if i < |t| {
      assert t[i..i + 1] == [t[i]];
    }
  }
}

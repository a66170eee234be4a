/** Replacing every occurrence in a string: splitting at the occurrences and joining with the replacement. */
module ReplaceAll {
  import opened Options
  import opened Searching

  /** The pieces between the leftmost occurrences that do not overlap. */
  function Pieces(t: string, s: string): (ps: seq<string>)
    requires |s| > 0
    ensures |ps| > 0
    decreases |t|
  {
    match Search(t, s, 0)
    case None => [t]
    case Some(p) => [t[..p]] + Pieces(t[p + |s|..], s)
  }

  function Join(ps: seq<string>, r: string): string
    requires |ps| > 0
    decreases |ps|
  {
    if |ps| == 1 then ps[0] else ps[0] + r + Join(ps[1..], r)
  }

  predicate Free(t: string, s: string) {
    NoneBefore(t, s, |t| + 1)
  }

  /** Splitting loses nothing, and no piece holds the search string. */
  lemma {:induction false} PiecesMakeUp(t: string, s: string)
    requires |s| > 0
    ensures Join(Pieces(t, s), s) == t
    ensures forall i :: 0 <= i < |Pieces(t, s)| ==> Free(Pieces(t, s)[i], s)
    decreases |t|
  {
    hide Occurs, Free, NoneBefore;
    match Search(t, s, 0)
    case None =>
      NeverFree(t, s);
    case Some(p) =>
      FoundParts(t, s, p);
      var rest := t[p + |s|..];
      PiecesMakeUp(rest, s);
      assert Pieces(t, s) == [t[..p]] + Pieces(rest, s);
      assert Pieces(t, s)[1..] == Pieces(rest, s);
  }

  lemma NeverFree(t: string, s: string)
    requires Search(t, s, 0).None?
    ensures Free(t, s)
  {
  }

  lemma FoundParts(t: string, s: string, p: nat)
    requires |s| > 0 && Search(t, s, 0) == Some(p)
    ensures p + |s| <= |t| && t == t[..p] + s + t[p + |s|..] && Free(t[..p], s)
  {
    FreeBefore(t, s, p);
  }

  lemma FreeBefore(t: string, s: string, p: nat)
    requires p <= |t| && |s| > 0 && NoneBefore(t, s, p)
    ensures Free(t[..p], s)
  {
    forall i | 0 <= i < p + 1 ensures !Occurs(t[..p], s, i) {
      if i + |s| <= p {
        assert t[..p][i..i + |s|] == t[i..i + |s|];
        assert !Occurs(t, s, i);
      }
    }
  }

  /** Joining with a single character and splitting at it are inverse where no piece holds it. */
  lemma {:induction false} PiecesOfJoined(ps: seq<string>, c: char)
    requires |ps| > 0 && forall i :: 0 <= i < |ps| ==> c !in ps[i]
    ensures Pieces(Join(ps, [c]), [c]) == ps
    decreases |ps|
  {
    hide Occurs;
    var t := Join(ps, [c]);
    if |ps| == 1 {
      forall i | 0 <= i ensures !Occurs(t, [c], i) {
        OccursOne(t, c, i);
      }
      assert ps == [t];
    } else {
      var p := |ps[0]|;
      PiecesOfJoined(ps[1..], c);
      assert t[..p] == ps[0] && t[p] == c && t[p + 1..] == Join(ps[1..], [c]);
      forall i | 0 <= i < p ensures !Occurs(t, [c], i) {
        OccursOne(t, c, i);
        assert t[i] == ps[0][i];
      }
      OccursOne(t, c, p);
      SearchIs(t, [c], p);
      assert ps == [ps[0]] + ps[1..];
    }
  }

  /** Numbers of a community: colons become commas. */
  lemma ColonsBecomeCommas(numbers: seq<string>)
    requires |numbers| > 0 && forall i :: 0 <= i < |numbers| ==> ':' !in numbers[i]
    ensures Join(Pieces(Join(numbers, ":"), ":"), ",") == Join(numbers, ",")
  {
    PiecesOfJoined(numbers, ':');
    assert ":" == [':'];
  }

  /** One turn of the loop: what is done stays, the first occurrence behind it is replaced. */
  lemma Turn(t: string, s: string, r: string, p: nat)
    requires |s| > 0 && Search(t, s, 0) == Some(p)
    ensures Join(Pieces(t, s), r) == t[..p] + r + Join(Pieces(t[p + |s|..], s), r)
  {
    var rest := Pieces(t[p + |s|..], s);
    assert Pieces(t, s) == [t[..p]] + rest;
    JoinFirst(t[..p], rest, r);
  }

  lemma JoinFirst(first: string, rest: seq<string>, r: string)
    requires |rest| > 0
    ensures Join([first] + rest, r) == first + r + Join(rest, r)
  {
    assert ([first] + rest)[1..] == rest;
  }

  /** In the middle of replacing: the first n characters are done, and finishing the rest gives the whole. */
  ghost predicate Replacing(original: string, now: string, n: nat, s: string, r: string)
    requires |s| > 0
  {
    n <= |now| && now[..n] + Join(Pieces(now[n..], s), r) == Join(Pieces(original, s), r)
  }

  lemma NothingReplaced(original: string, s: string, r: string)
    requires |s| > 0
    ensures Replacing(original, original, 0, s, r)
  {
    hide Pieces, Join;
    assert original[0..] == original;
    assert original[..0] + Join(Pieces(original, s), r) == Join(Pieces(original, s), r);
  }

  lemma OneReplaced(original: string, now: string, n: nat, s: string, r: string, pos: nat)
    requires |s| > 0 && Replacing(original, now, n, s, r) && Search(now, s, n) == Some(pos)
    ensures n <= pos && pos + |s| <= |now|
    ensures var next := now[..pos] + r + now[pos + |s|..];
            Replacing(original, next, pos + |r|, s, r) && |next| - (pos + |r|) < |now| - n
  {
    hide Pieces, Join, Search;
    var done, rest := now[..n], now[n..];
    assert now == done + rest;
    SearchBehind(done, rest, s);
    var p := pos - n;
    FoundParts(rest, s, p);
    Turn(rest, s, r, p);
    var next := now[..pos] + r + now[pos + |s|..];
    assert now[..pos] == done + rest[..p] && now[pos + |s|..] == rest[p + |s|..];
    assert next[..pos + |r|] == done + rest[..p] + r && next[pos + |r|..] == rest[p + |s|..];
    Nested(done, rest[..p], r, Join(Pieces(rest[p + |s|..], s), r));
  }

  lemma Nested(a: string, b: string, c: string, d: string)
    ensures a + (b + c + d) == a + b + c + d
  {
  }

  lemma AllReplaced(original: string, now: string, n: nat, s: string, r: string)
    requires |s| > 0 && Replacing(original, now, n, s, r) && Search(now, s, n) == None
    ensures now == Join(Pieces(original, s), r)
  {
    hide Pieces, Join, Search;
    assert now == now[..n] + now[n..];
    SearchBehind(now[..n], now[n..], s);
    NothingLeft(now[n..], s, r);
  }

  /** A string that operations change in place. */
  class StringBuffer {
    var data: string

    constructor (s: string)
      ensures data == s
    {
      data := s;
    }

    method Replace(pos: nat, n: nat, r: string)
      requires pos + n <= |data|
      modifies this
      ensures data == old(data)[..pos] + r + old(data)[pos + n..]
    {
      data := data[..pos] + r + data[pos + n..];
    }

    /** The search goes on behind the replacement, so it ends even when the replacement holds the search string. */
    method FindAndReplaceAllInPlace(s: string, r: string)
      requires |s| > 0
      modifies this
      ensures data == Join(Pieces(old(data), s), r)
    {
      hide Search, Replacing, Pieces, Join;
      ghost var original, n: nat := data, 0;
      NothingReplaced(data, s, r);
      var pos := Search(data, s, 0);
      while pos.Some?
        invariant n <= |data| && Replacing(original, data, n, s, r) && pos == Search(data, s, n)
        decreases |data| - n
      {
        OneReplaced(original, data, n, s, r, pos.value);
        Replace(pos.value, |s|, r);
        n := pos.value + |r|;
        pos := Search(data, s, pos.value + |r|);
      }
      AllReplaced(original, data, n, s, r);
    }
  }

  lemma NothingLeft(t: string, s: string, r: string)
    requires |s| > 0 && Search(t, s, 0).None?
    ensures Join(Pieces(t, s), r) == t
  {
  }

  /** The copying version, with a loop of its own. */
  method FindAndReplaceAll(data: string, s: string, r: string) returns (copy: string)
    requires |s| > 0
    ensures copy == Join(Pieces(data, s), r)
  {
    hide Search, Replacing, Pieces, Join;
    copy := data;
    ghost var n: nat := 0;
    NothingReplaced(data, s, r);
    var pos := Search(copy, s, 0);
    while pos.Some?
      invariant n <= |copy| && Replacing(data, copy, n, s, r) && pos == Search(copy, s, n)
      decreases |copy| - n
    {
      OneReplaced(data, copy, n, s, r, pos.value);
      copy := copy[..pos.value] + r + copy[pos.value + |s|..];
      n := pos.value + |r|;
      pos := Search(copy, s, pos.value + |r|);
    }
    AllReplaced(data, copy, n, s, r);
  }
}

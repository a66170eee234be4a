/**
 How a chunk size may be spelled: blanks, a sign, a prefix, digits whose letters are in either
 case, and anything behind them; and that reading gives the positional value of the digits.
 */
module ChunkSizes {
  import opened Options
  import opened Bytes
  import opened Chunked

  /** The letter of a hexadecimal digit, in either case. */
  predicate DigitIs(b: byte, d: nat) {
    if d < 10 then b as nat == '0' as nat + d
    else d < 16 && (b as nat == 'a' as nat + (d - 10) || b as nat == 'A' as nat + (d - 10))
  }

  predicate IsDigit(b: byte) {
    exists d: nat :: d < 16 && DigitIs(b, d)
  }

  predicate IsBlank(b: byte) {
    b == ' ' as byte || b == '\t' as byte || b == '\n' as byte || b == 11 || b == 12 || b == '\r' as byte
  }

  predicate IsX(b: byte) {
    b == 'x' as byte || b == 'X' as byte
  }

  datatype Sign = NoSign | Plus | Minus

  datatype Spelling = Spelling(
    blanks: seq<byte>, sign: Sign, prefix: seq<byte>, letters: seq<byte>, digits: seq<nat>, rest: seq<byte>)

  function SignText(s: Sign): seq<byte> {
    match s
    case NoSign => []
    case Plus => ['+' as byte]
    case Minus => ['-' as byte]
  }

  function Text(sp: Spelling): seq<byte> {
    sp.blanks + SignText(sp.sign) + sp.prefix + sp.letters + sp.rest
  }

  predicate Spells(letters: seq<byte>, digits: seq<nat>) {
    |letters| == |digits| && forall i :: 0 <= i < |digits| ==> DigitIs(letters[i], digits[i])
  }

  /** At least one digit; what follows is no digit, and does not turn a single zero into a prefix. */
  predicate Proper(sp: Spelling) {
    && (forall i :: 0 <= i < |sp.blanks| ==> IsBlank(sp.blanks[i]))
    && (sp.prefix != [] ==> |sp.prefix| == 2 && sp.prefix[0] == '0' as byte && IsX(sp.prefix[1]))
    && sp.letters != [] && Spells(sp.letters, sp.digits)
    && (sp.rest != [] ==> !IsDigit(sp.rest[0]))
    && (sp.prefix == [] && sp.digits == [0] && |sp.rest| >= 2 && IsX(sp.rest[0]) ==> !IsDigit(sp.rest[1]))
  }

  /** The digits in the positional system. */
  function Positional(digits: seq<nat>): nat {
    if digits == [] then 0 else digits[0] * Power16(|digits| - 1) + Positional(digits[1..])
  }

  /** The number as an unsigned long: too large a one becomes the largest, a negative one wraps around. */
  function Number(sp: Spelling): nat {
    var v := Positional(sp.digits);
    if v > ULONG_MAX then ULONG_MAX
    else if sp.sign == Minus && v > 0 then ULONG_MAX + 1 - v
    else v
  }

  /** The text spells this number. */
  ghost predicate SizeIs(s: seq<byte>, n: nat) {
    exists sp :: Proper(sp) && Text(sp) == s && Number(sp) == n
  }

  // ---------- Digits ----------

  lemma DigitRead(b: byte)
    ensures forall d: nat :: DigitIs(b, d) <==> DigitValue(b) == Some(d)
    ensures IsDigit(b) <==> DigitValue(b).Some?
  {
    if DigitValue(b).Some? {
      assert DigitIs(b, DigitValue(b).value);
    }
  }

  lemma {:induction false} PositionalSnoc(digits: seq<nat>, d: nat)
    ensures Positional(digits + [d]) == Positional(digits) * 16 + d
  {
    if digits == [] {
      assert [d][1..] == [] && Positional([d]) == d * Power16(0) + Positional([]);
      assert digits + [d] == [d];
    } else {
      var n := |digits|;
      assert (digits + [d])[1..] == digits[1..] + [d];
      PositionalSnoc(digits[1..], d);
      assert digits[0] * Power16(n) == digits[0] * (16 * Power16(n - 1)) == digits[0] * Power16(n - 1) * 16;
    }
  }

  lemma {:induction false} ValueIsPositional(letters: seq<byte>, digits: seq<nat>)
    requires Spells(letters, digits)
    ensures AllDigits(letters) && Value(letters) == Positional(digits)
    decreases |letters|
  {
    hide DigitValue, Positional;
    if letters == [] {
      assert Positional([]) == 0 by {
        NothingIsZero();
      }
    } else {
      var n := |letters| - 1;
      DigitRead(letters[n]);
      ValueIsPositional(letters[..n], digits[..n]);
      PositionalSnoc(digits[..n], digits[n]);
      assert digits == digits[..n] + [digits[n]];
      assert letters == letters[..n] + [letters[n]];
    }
  }

  lemma NothingIsZero()
    ensures Positional([]) == 0
  {
  }

  // ---------- What is spelled is read ----------

  lemma {:induction false} BlanksRead(blanks: seq<byte>, tail: seq<byte>, i: nat)
    requires i <= |blanks| && forall k :: 0 <= k < |blanks| ==> IsBlank(blanks[k])
    requires tail != [] ==> !IsSpace(tail[0])
    ensures Spaces(blanks + tail, i) == |blanks|
    decreases |blanks| - i
  {
    if i < |blanks| {
      assert IsBlank(blanks[i]);
      BlanksRead(blanks, tail, i + 1);
    }
  }

  lemma {:induction false} DigitsCounted(head: seq<byte>, letters: seq<byte>, rest: seq<byte>, i: nat)
    requires i <= |letters| && AllDigits(letters) && (rest != [] ==> DigitValue(rest[0]).None?)
    ensures DigitCount(head + letters + rest, |head| + i) == |letters| - i
    decreases |letters| - i
  {
    hide DigitValue;
    var s := head + letters + rest;
    if i < |letters| {
      assert s[|head| + i] == letters[i];
      DigitsCounted(head, letters, rest, i + 1);
    } else if rest != [] {
      assert s[|head| + i] == rest[0];
    }
  }

  /** Where blanks, sign and prefix end. */
  function Head(sp: Spelling): seq<byte> {
    sp.blanks + SignText(sp.sign) + sp.prefix
  }

  lemma BlanksEnd(sp: Spelling)
    requires Proper(sp)
    ensures Spaces(Text(sp), 0) == |sp.blanks|
    ensures IsSigned(Text(sp), |sp.blanks|) <==> sp.sign != NoSign
    ensures sp.sign == Minus <==> IsSigned(Text(sp), |sp.blanks|) && Text(sp)[|sp.blanks|] == 45
  {
    DigitRead(sp.letters[0]);
    var tail := SignText(sp.sign) + sp.prefix + sp.letters + sp.rest;
    assert tail[0] == (if sp.sign != NoSign then SignText(sp.sign)[0]
                       else if sp.prefix != [] then sp.prefix[0] else sp.letters[0]);
    assert Text(sp) == sp.blanks + tail;
    assert Text(sp)[|sp.blanks|] == tail[0];
    BlanksRead(sp.blanks, tail, 0);
  }

  /** The reader takes the first two letters for a prefix. */
  predicate HasPrefix(t: seq<byte>) {
    |t| > 2 && t[0] == 48 && (t[1] == 120 || t[1] == 88) && DigitValue(t[2]).Some?
  }

  lemma PrefixAfter(front: seq<byte>, t: seq<byte>)
    requires Spaces(front + t, 0) + (if IsSigned(front + t, Spaces(front + t, 0)) then 1 else 0) == |front|
    ensures DigitsAt(front + t) == |front| + if HasPrefix(t) then 2 else 0
  {
    hide DigitValue, Spaces, IsSigned;
    var s := front + t;
    assert forall k :: 0 <= k < |t| ==> s[|front| + k] == t[k];
  }

  lemma PrefixIsRead(sp: Spelling)
    requires Proper(sp)
    ensures HasPrefix(sp.prefix + sp.letters + sp.rest) <==> sp.prefix != []
  {
    hide DigitValue, IsDigit;
    var t := sp.prefix + sp.letters + sp.rest;
    DigitRead(sp.letters[0]);
    assert DigitIs(sp.letters[0], sp.digits[0]);
    if sp.prefix != [] {
      assert t[0] == sp.prefix[0] && t[1] == sp.prefix[1] && t[2] == sp.letters[0];
    } else if |sp.letters| > 1 {
      DigitRead(sp.letters[1]);
      assert t[1] == sp.letters[1] && DigitIs(sp.letters[1], sp.digits[1]);
      XIsNoDigit(sp.letters[1]);
    } else {
      assert t[0] == sp.letters[0] && forall k :: 0 <= k < |sp.rest| ==> t[1 + k] == sp.rest[k];
      assert sp.digits == [sp.digits[0]];
      if |sp.rest| >= 2 {
        DigitRead(sp.rest[1]);
      }
    }
  }

  lemma XIsNoDigit(b: byte)
    ensures IsX(b) ==> DigitValue(b).None?
    ensures IsX(b) <==> b == 120 || b == 88
  {
  }

  lemma DigitsBehindHead(sp: Spelling)
    requires Proper(sp)
    ensures DigitsAt(Text(sp)) == |Head(sp)|
  {
    hide DigitValue, IsSigned, Spaces, HasPrefix, DigitsAt, Proper;
    BlanksEnd(sp);
    var front, t := sp.blanks + SignText(sp.sign), sp.prefix + sp.letters + sp.rest;
    assert Text(sp) == front + t;
    PrefixAfter(front, t);
    PrefixIsRead(sp);
    PrefixIsTwo(sp);
  }

  lemma PrefixIsTwo(sp: Spelling)
    requires Proper(sp)
    ensures |sp.prefix| == if sp.prefix != [] then 2 else 0
  {
  }

  /** Reading gives the number of every proper spelling, in lower case, in upper case, or mixed. */
  lemma SpellingIsRead(sp: Spelling)
    requires Proper(sp)
    ensures Strtoul(Text(sp)) == Some(Number(sp))
  {
    hide DigitValue, DigitsAt, Spaces, DigitCount, IsSigned, Value, Positional, Proper, Spells;
    BlanksEnd(sp);
    DigitsBehindHead(sp);
    LettersRead(sp);
  }

  lemma LettersRead(sp: Spelling)
    requires Proper(sp)
    ensures var s, at := Text(sp), |Head(sp)|;
            && DigitCount(s, at) == |sp.letters| > 0 && at + |sp.letters| <= |s|
            && AllDigits(s[at..at + |sp.letters|]) && Value(s[at..at + |sp.letters|]) == Positional(sp.digits)
  {
    hide DigitValue, DigitCount, Value, Positional;
    ValueIsPositional(sp.letters, sp.digits);
    if sp.rest != [] {
      DigitRead(sp.rest[0]);
    }
    var s, at := Text(sp), |Head(sp)|;
    assert s == Head(sp) + sp.letters + sp.rest;
    DigitsCounted(Head(sp), sp.letters, sp.rest, 0);
    assert s[at..at + |sp.letters|] == sp.letters;
  }

  // ---------- What is read is spelled ----------

  lemma {:induction false} SpacesAreBlanks(s: seq<byte>, i: nat)
    requires i <= |s|
    ensures var n := Spaces(s, i);
            (forall k :: i <= k < n ==> IsBlank(s[k])) && (n < |s| ==> !IsSpace(s[n]))
    decreases |s| - i
  {
    if i < |s| && IsSpace(s[i]) {
      SpacesAreBlanks(s, i + 1);
    }
  }

  lemma {:induction false} CountStops(s: seq<byte>, i: nat)
    ensures var n := DigitCount(s, i); i + n < |s| ==> DigitValue(s[i + n]).None?
    decreases |s| - i
  {
    if i < |s| && DigitValue(s[i]).Some? {
      CountStops(s, i + 1);
    }
  }

  lemma DigitsAtInside(s: seq<byte>)
    ensures Spaces(s, 0) <= DigitsAt(s) <= |s|
    ensures IsSigned(s, Spaces(s, 0)) ==> Spaces(s, 0) + 1 <= DigitsAt(s)
  {
  }

  /** The parts in which a text is read. */
  ghost function PartsOf(s: seq<byte>): Spelling
    requires Strtoul(s).Some?
  {
    DigitsAtInside(s);
    var start, at := Spaces(s, 0), DigitsAt(s);
    var n := DigitCount(s, at);
    var letters := s[at..at + n];
    assert AllDigits(letters);
    var from := if IsSigned(s, start) then start + 1 else start;
    Spelling(s[..start], if !IsSigned(s, start) then NoSign else if s[start] == 45 then Minus else Plus,
             s[from..at], letters, seq(n, i requires 0 <= i < n => DigitValue(letters[i]).value), s[at + n..])
  }

  lemma CutInFive(s: seq<byte>, i: nat, j: nat, k: nat, l: nat)
    requires i <= j <= k <= l <= |s|
    ensures s[..i] + s[i..j] + s[j..k] + s[k..l] + s[l..] == s
  {
    assert s[..i] + s[i..j] == s[..j];
    assert s[..j] + s[j..k] == s[..k];
    assert s[..k] + s[k..l] == s[..l];
  }

  lemma SignIsCut(s: seq<byte>, start: nat)
    requires start <= |s|
    ensures IsSigned(s, start) ==> start < |s|
    ensures var signed := IsSigned(s, start);
            SignText(if !signed then NoSign else if s[start] == 45 then Minus else Plus)
            == s[start..if signed then start + 1 else start]
  {
  }

  lemma PartsMakeUp(s: seq<byte>)
    requires Strtoul(s).Some?
    ensures Text(PartsOf(s)) == s
  {
    hide DigitValue, DigitCount, Spaces, IsSigned, SignText;
    var start, at := Spaces(s, 0), DigitsAt(s);
    SignIsCut(s, start);
    DigitsAtInside(s);
    CutInFive(s, start, if IsSigned(s, start) then start + 1 else start, at, at + DigitCount(s, at));
  }

  lemma PartsSpell(s: seq<byte>)
    requires Strtoul(s).Some?
    ensures var sp := PartsOf(s);
            && sp.letters != [] && Spells(sp.letters, sp.digits)
            && (sp.rest != [] ==> !IsDigit(sp.rest[0]))
  {
    hide DigitValue, DigitsAt, DigitCount, Spaces, IsSigned;
    CountStops(s, DigitsAt(s));
    DigitsAtInside(s);
    var sp := PartsOf(s);
    forall i | 0 <= i < |sp.letters| ensures DigitIs(sp.letters[i], sp.digits[i]) {
      DigitRead(sp.letters[i]);
    }
    if sp.rest != [] {
      DigitRead(sp.rest[0]);
    }
  }

  lemma PartsPrefix(s: seq<byte>)
    requires Strtoul(s).Some?
    ensures var sp := PartsOf(s);
            sp.prefix != [] ==> |sp.prefix| == 2 && sp.prefix[0] == '0' as byte && IsX(sp.prefix[1])
  {
    hide DigitValue, DigitCount, Spaces, Strtoul;
  }

  lemma PartsZero(s: seq<byte>)
    requires Strtoul(s).Some?
    ensures var sp := PartsOf(s);
            sp.prefix == [] && sp.digits == [0] && |sp.rest| >= 2 && IsX(sp.rest[0]) ==> !IsDigit(sp.rest[1])
  {
    hide DigitValue, IsDigit, DigitCount, Spaces, Strtoul, IsX;
    PartsSpell(s);
    var sp, start := PartsOf(s), Spaces(s, 0);
    var from := if IsSigned(s, start) then start + 1 else start;
    if sp.prefix == [] && sp.digits == [0] && |sp.rest| >= 2 && IsX(sp.rest[0]) {
      assert s[from] == sp.letters[0] && s[from + 1] == sp.rest[0] && s[from + 2] == sp.rest[1];
      assert DigitIs(sp.letters[0], 0);
      XIsNoDigit(sp.rest[0]);
      DigitRead(sp.rest[1]);
    }
  }

  lemma PartsAreProper(s: seq<byte>)
    requires Strtoul(s).Some?
    ensures Proper(PartsOf(s)) && Text(PartsOf(s)) == s
  {
    SpacesAreBlanks(s, 0);
    PartsMakeUp(s);
    PartsSpell(s);
    PartsPrefix(s);
    PartsZero(s);
    hide DigitValue, IsDigit, DigitCount, Spaces, DigitsAt, Strtoul, Spells, Text;
  }

  /** Reading a size is exactly this: a number is read if and only if the text spells it. */
  lemma SizeReadExactly(s: seq<byte>, n: nat)
    ensures Strtoul(s) == Some(n) <==> SizeIs(s, n)
  {
    hide Strtoul, Text, Proper, Number;
    if Strtoul(s).Some? {
      PartsAreProper(s);
      SpellingIsRead(PartsOf(s));
    }
    if SizeIs(s, n) {
      var sp :| Proper(sp) && Text(sp) == s && Number(sp) == n;
      SpellingIsRead(sp);
    }
  }
}

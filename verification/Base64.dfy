/** Base64 with an accumulator of 32 bits that wraps around, against groups of three bytes. */
module Base64 {
  import opened Options
  import opened Bytes

  /** The alphabet of section 4 of RFC 4648. */
  function Letter(k: nat): char
    requires k < 64
  {
    if k < 26 then 'A' + k as char
    else if k < 52 then 'a' + (k - 26) as char
    else if k < 62 then '0' + (k - 52) as char
    else if k == 62 then '+' else '/'
  }

  function LetterIndex(c: char): Option<nat> {
    if 'A' <= c <= 'Z' then Some((c - 'A') as nat)
    else if 'a' <= c <= 'z' then Some((c - 'a') as nat + 26)
    else if '0' <= c <= '9' then Some((c - '0') as nat + 52)
    else if c == '+' then Some(62)
    else if c == '/' then Some(63)
    else None
  }

  // ---------- Groups of three ----------

  function Sextet0(a: byte): char { Letter(a as nat / 4) }

  function Sextet1(a: byte, b: byte): char { Letter(a as nat % 4 * 16 + b as nat / 16) }

  function Sextet2(b: byte, c: byte): char { Letter(b as nat % 16 * 4 + c as nat / 64) }

  function Sextet3(c: byte): char { Letter(c as nat % 64) }

  function Group(a: byte, b: byte, c: byte): string {
    [Sextet0(a), Sextet1(a, b), Sextet2(b, c), Sextet3(c)]
  }

  function Encode(s: seq<byte>): string
    decreases |s|
  {
    if s == [] then ""
    else if |s| == 1 then [Sextet0(s[0]), Sextet1(s[0], 0), '=', '=']
    else if |s| == 2 then [Sextet0(s[0]), Sextet1(s[0], s[1]), Sextet2(s[1], 0), '=']
    else Group(s[0], s[1], s[2]) + Encode(s[3..])
  }

  /** One group of four letters, of which the last one or two may be padding. */
  function DecodeGroup(w: char, x: char, y: char, z: char): Option<seq<byte>> {
    var i, j, k, l := LetterIndex(w), LetterIndex(x), LetterIndex(y), LetterIndex(z);
    if i.None? || j.None? then None
    else
      var a := (i.value * 4 + j.value / 16) % 256;
      if y == '=' && z == '=' then Some([a as byte])
      else if k.None? then None
      else
        var b := (j.value % 16 * 16 + k.value / 4) % 256;
        if z == '=' then Some([a as byte, b as byte])
        else if l.None? then None
        else Some([a as byte, b as byte, ((k.value % 4 * 64 + l.value) % 256) as byte])
  }

  function Decode(t: string): Option<seq<byte>>
    decreases |t|
  {
    if t == "" then Some([])
    else if |t| < 4 then None
    else
      match DecodeGroup(t[0], t[1], t[2], t[3])
      case None => None
      case Some(bytes) =>
        match Decode(t[4..])
        case None => None
        case Some(rest) => Some(bytes + rest)
  }

  lemma LetterComesBack(k: nat)
    requires k < 64
    ensures LetterIndex(Letter(k)) == Some(k) && Letter(k) != '='
  {
  }

  function First(i: nat, j: nat): byte { ((i * 4 + j / 16) % 256) as byte }

  function Second(j: nat, k: nat): byte { ((j % 16 * 16 + k / 4) % 256) as byte }

  function Third(k: nat, l: nat): byte { ((k % 4 * 64 + l) % 256) as byte }

  lemma LettersDecode(i: nat, j: nat, k: nat, l: nat)
    requires i < 64 && j < 64 && k < 64 && l < 64
    ensures DecodeGroup(Letter(i), Letter(j), Letter(k), Letter(l)) == Some([First(i, j), Second(j, k), Third(k, l)])
    ensures DecodeGroup(Letter(i), Letter(j), Letter(k), '=') == Some([First(i, j), Second(j, k)])
    ensures DecodeGroup(Letter(i), Letter(j), '=', '=') == Some([First(i, j)])
  {
    hide Letter, LetterIndex;
    LetterComesBack(i);
    LetterComesBack(j);
    LetterComesBack(k);
    LetterComesBack(l);
    EqualsIsNoLetter();
  }

  lemma FirstComesBack(a: nat, b: nat)
    requires a < 256 && b < 256
    ensures First(a / 4, a % 4 * 16 + b / 16) as nat == a
  {
    BitsComeBack(a, b, 0);
    assert a / 4 * 4 + a % 4 == a;
  }

  lemma SecondComesBack(a: nat, b: nat, c: nat)
    requires a < 256 && b < 256 && c < 256
    ensures Second(a % 4 * 16 + b / 16, b % 16 * 4 + c / 64) as nat == b
  {
    BitsComeBack(a, b, c);
    assert b / 16 * 16 + b % 16 == b;
  }

  lemma ThirdComesBack(b: nat, c: nat)
    requires b < 256 && c < 256
    ensures Third(b % 16 * 4 + c / 64, c % 64) as nat == c
  {
    BitsComeBack(0, b, c);
    assert c / 64 * 64 + c % 64 == c;
  }

  lemma GroupComesBack(a: byte, b: byte, c: byte)
    ensures DecodeGroup(Sextet0(a), Sextet1(a, b), Sextet2(b, c), Sextet3(c)) == Some([a, b, c])
    ensures DecodeGroup(Sextet0(a), Sextet1(a, b), Sextet2(b, 0), '=') == Some([a, b])
    ensures DecodeGroup(Sextet0(a), Sextet1(a, 0), '=', '=') == Some([a])
  {
    hide DecodeGroup, Letter, First, Second, Third;
    var i, j, k, l := a as nat / 4, a as nat % 4 * 16 + b as nat / 16, b as nat % 16 * 4 + c as nat / 64, c as nat % 64;
    LettersDecode(i, j, k, l);
    LettersDecode(i, j, b as nat % 16 * 4, l);
    LettersDecode(i, a as nat % 4 * 16, k, l);
    FirstComesBack(a as nat, b as nat);
    FirstComesBack(a as nat, 0);
    SecondComesBack(a as nat, b as nat, c as nat);
    SecondComesBack(a as nat, b as nat, 0);
    ThirdComesBack(b as nat, c as nat);
  }

  lemma BitsComeBack(a: nat, b: nat, c: nat)
    requires a < 256 && b < 256 && c < 256
    ensures var j := a % 4 * 16 + b / 16; j / 16 == a % 4 && j % 16 == b / 16
    ensures var k := b % 16 * 4 + c / 64; k / 4 == b % 16 && k % 4 == c / 64
    ensures a % 4 * 16 / 16 == a % 4 && b % 16 * 4 / 4 == b % 16
  {
  }

  lemma EqualsIsNoLetter()
    ensures LetterIndex('=') == None
  {
  }

  lemma {:induction false} RoundTrip(s: seq<byte>)
    ensures Decode(Encode(s)) == Some(s)
    decreases |s|
  {
    hide Encode, Decode;
    if |s| >= 3 {
      RoundTrip(s[3..]);
      GroupRoundTrip(s);
    } else {
      ShortRoundTrip(s);
    }
  }

  lemma DecodeFour(w: char, x: char, y: char, z: char, rest: string)
    ensures Decode([w, x, y, z] + rest) ==
            match DecodeGroup(w, x, y, z)
            case None => None
            case Some(bytes) => match Decode(rest) case None => None case Some(more) => Some(bytes + more)
  {
    hide DecodeGroup;
    assert ([w, x, y, z] + rest)[4..] == rest;
  }

  lemma EncodeThree(s: seq<byte>)
    requires |s| >= 3
    ensures Encode(s) == [Sextet0(s[0]), Sextet1(s[0], s[1]), Sextet2(s[1], s[2]), Sextet3(s[2])] + Encode(s[3..])
  {
    hide Sextet0, Sextet1, Sextet2, Sextet3;
  }

  lemma GroupRoundTrip(s: seq<byte>)
    requires |s| >= 3 && Decode(Encode(s[3..])) == Some(s[3..])
    ensures Decode(Encode(s)) == Some(s)
  {
    hide Encode, Decode, DecodeGroup, Sextet0, Sextet1, Sextet2, Sextet3;
    EncodeThree(s);
    DecodeFour(Sextet0(s[0]), Sextet1(s[0], s[1]), Sextet2(s[1], s[2]), Sextet3(s[2]), Encode(s[3..]));
    GroupComesBack(s[0], s[1], s[2]);
    assert [s[0], s[1], s[2]] + s[3..] == s;
  }

  lemma EncodeShort(s: seq<byte>)
    ensures |s| == 0 ==> Encode(s) == ""
    ensures |s| == 1 ==> Encode(s) == [Sextet0(s[0]), Sextet1(s[0], 0), '=', '='] + ""
    ensures |s| == 2 ==> Encode(s) == [Sextet0(s[0]), Sextet1(s[0], s[1]), Sextet2(s[1], 0), '='] + ""
    ensures Decode("") == Some([])
  {
    hide Sextet0, Sextet1, Sextet2, Sextet3, DecodeGroup;
  }

  lemma ShortRoundTrip(s: seq<byte>)
    requires |s| < 3
    ensures Decode(Encode(s)) == Some(s)
  {
    hide Encode, Decode, DecodeGroup, Sextet0, Sextet1, Sextet2, Sextet3;
    EncodeShort(s);
    if |s| == 2 {
      DecodeFour(Sextet0(s[0]), Sextet1(s[0], s[1]), Sextet2(s[1], 0), '=', "");
      GroupComesBack(s[0], s[1], 0);
      assert [s[0], s[1]] + [] == s;
    } else if |s| == 1 {
      DecodeFour(Sextet0(s[0]), Sextet1(s[0], 0), '=', '=', "");
      GroupComesBack(s[0], 0, 0);
      assert [s[0]] + [] == s;
    }
  }

  lemma {:induction false} EncodedLength(s: seq<byte>)
    ensures |Encode(s)| == (|s| + 2) / 3 * 4
    decreases |s|
  {
    hide Group;
    if |s| >= 3 {
      GroupLength(s[0], s[1], s[2]);
      EncodedLength(s[3..]);
      assert (|s| + 2) / 3 == (|s[3..]| + 2) / 3 + 1;
    }
  }

  lemma GroupLength(a: byte, b: byte, c: byte)
    ensures |Group(a, b, c)| == 4
  {
  }

  // ---------- The accumulator ----------

  /** Two's complement in 32 bits. */
  function Wrap(v: int): int {
    (v + 0x8000_0000) % 0x1_0000_0000 - 0x8000_0000
  }

  function Power2(s: nat): (p: nat)
    ensures p > 0
  {
    if s == 0 then 1 else 2 * Power2(s - 1)
  }

  /** v >> s, masked with 0x3F. */
  function SextetAt(v: int, s: nat): (k: nat)
    ensures k < 64
  {
    v / Power2(s) % 64
  }

  /** What an accumulator without a bound would hold. */
  function Unbounded(s: seq<byte>): nat
    decreases |s|
  {
    if s == [] then 0 else Unbounded(s[..|s| - 1]) * 256 + s[|s| - 1] as nat
  }

  /** The shift never exceeds six, so wrapping around does not touch the bits that are used. */
  lemma WrapKeepsSextets(v: int, s: nat)
    requires s == 0 || s == 2 || s == 4 || s == 6
    ensures SextetAt(Wrap(v), s) == SextetAt(v, s)
  {
    var q := (v + 0x8000_0000) / 0x1_0000_0000;
    assert Wrap(v) == v - q * 0x1_0000_0000;
    assert Power2(2) == 4 && Power2(4) == 16 && Power2(6) == 64;
    if s == 0 {
      SubKeeps(v, q * 0x400_0000);
    } else if s == 2 {
      SubDivides4(v, q * 0x4000_0000);
      SubKeeps(v / 4, q * 0x100_0000);
    } else if s == 4 {
      SubDivides16(v, q * 0x1000_0000);
      SubKeeps(v / 16, q * 0x40_0000);
    } else {
      SubDivides64(v, q * 0x400_0000);
      SubKeeps(v / 64, q * 0x10_0000);
    }
  }

  lemma SubKeeps(v: int, k: int)
    ensures (v - 64 * k) % 64 == v % 64
  {
  }

  lemma SubDivides4(v: int, k: int)
    ensures (v - 4 * k) / 4 == v / 4 - k
  {
  }

  lemma SubDivides16(v: int, k: int)
    ensures (v - 16 * k) / 16 == v / 16 - k
  {
  }

  lemma SubDivides64(v: int, k: int)
    ensures (v - 64 * k) / 64 == v / 64 - k
  {
  }

  lemma WrapAccumulates(v: int, c: byte)
    ensures Wrap(Wrap(v) * 256 + c as int) == Wrap(v * 256 + c as int)
  {
    var q := (v + 0x8000_0000) / 0x1_0000_0000;
    assert Wrap(v) == v - q * 0x1_0000_0000;
    WrapPeriod(v * 256 + c as int, q * 256);
  }

  lemma WrapPeriod(v: int, k: int)
    ensures Wrap(v - k * 0x1_0000_0000) == Wrap(v)
  {
    var n := v + 0x8000_0000;
    var q, r := n / 0x1_0000_0000, n % 0x1_0000_0000;
    assert n - k * 0x1_0000_0000 == (q - k) * 0x1_0000_0000 + r;
  }

  /** The letters that are complete after the bytes so far, and the shift, which is below zero between two bytes. */
  function Prefix(s: seq<byte>): string
    decreases |s|
  {
    if s == [] then ""
    else if |s| == 1 then [Sextet0(s[0])]
    else if |s| == 2 then [Sextet0(s[0]), Sextet1(s[0], s[1])]
    else Group(s[0], s[1], s[2]) + Prefix(s[3..])
  }

  function Rest(n: nat): int {
    if n % 3 == 0 then -6 else if n % 3 == 1 then -4 else -2
  }

  function LastByte(s: seq<byte>): byte {
    if s == [] then 0 else s[|s| - 1]
  }

  /** One more byte completes one letter, or two of them when it is the third of its group. */
  lemma {:induction false} PrefixSnoc(s: seq<byte>, c: byte)
    ensures Prefix(s + [c]) == Prefix(s) +
              if |s| % 3 == 0 then [Sextet0(c)]
              else if |s| % 3 == 1 then [Sextet1(LastByte(s), c)]
              else [Sextet2(LastByte(s), c), Sextet3(c)]
    decreases |s|
  {
    hide Sextet0, Sextet1, Sextet2, Sextet3;
    if |s| >= 3 {
      assert (s + [c])[3..] == s[3..] + [c];
      PrefixSnoc(s[3..], c);
    }
  }

  /** The letters still missing after the complete ones. */
  function Ending(s: seq<byte>): string {
    if |s| % 3 == 0 then ""
    else if |s| % 3 == 1 then [Sextet1(LastByte(s), 0), '=', '=']
    else [Sextet2(LastByte(s), 0), '=']
  }

  lemma {:induction false} PrefixLength(s: seq<byte>)
    ensures |Prefix(s)| == |s| / 3 * 4 + |s| % 3
    decreases |s|
  {
    hide Group, Prefix;
    if |s| >= 3 {
      PrefixLength(s[3..]);
      PrefixGroup(s);
      assert |s[3..]| / 3 == |s| / 3 - 1 && |s[3..]| % 3 == |s| % 3;
    } else {
      PrefixShort(s);
    }
  }

  lemma PrefixRemainder(s: seq<byte>)
    ensures |Prefix(s)| % 4 == |s| % 3
  {
    hide Prefix;
    PrefixLength(s);
    Remainder4(|s| / 3, |s| % 3);
  }

  lemma Remainder4(q: nat, r: nat)
    requires r < 4
    ensures (q * 4 + r) % 4 == r
  {
  }

  lemma PrefixGroup(s: seq<byte>)
    requires |s| >= 3
    ensures |Prefix(s)| == 4 + |Prefix(s[3..])|
  {
    hide Group;
    GroupLength(s[0], s[1], s[2]);
  }

  lemma PrefixShort(s: seq<byte>)
    requires |s| < 3
    ensures |Prefix(s)| == |s| && Encode(s) == Prefix(s) + Ending(s)
  {
    hide Sextet0, Sextet1, Sextet2;
  }

  lemma EndingOfRest(s: seq<byte>)
    requires |s| >= 3
    ensures Ending(s[3..]) == Ending(s)
  {
    assert |s[3..]| % 3 == |s| % 3;
    assert |s| > 3 ==> LastByte(s[3..]) == LastByte(s);
  }

  lemma {:induction false} EncodeIsPrefix(s: seq<byte>)
    ensures Encode(s) == Prefix(s) + Ending(s)
    decreases |s|
  {
    hide Encode, Prefix, Ending;
    if |s| >= 3 {
      EncodeIsPrefix(s[3..]);
      EncodeGroup(s);
    } else {
      PrefixShort(s);
    }
  }

  lemma EncodeGroup(s: seq<byte>)
    requires |s| >= 3 && Encode(s[3..]) == Prefix(s[3..]) + Ending(s[3..])
    ensures Encode(s) == Prefix(s) + Ending(s)
  {
    hide Group, Ending;
    EndingOfRest(s);
    RightNested(Group(s[0], s[1], s[2]), Prefix(s[3..]), Ending(s));
  }

  lemma RightNested(a: string, c: string, d: string)
    ensures a + c + d == a + (c + d)
  {
  }

  /** The letters read off an accumulator that ends in the bytes p and c. */
  lemma LettersOf(big: nat, p: byte, c: byte)
    requires big % 256 == p as nat
    ensures var v := big * 256 + c as nat;
            && Letter(SextetAt(v, 2)) == Sextet0(c) && Letter(SextetAt(v, 4)) == Sextet1(p, c)
            && Letter(SextetAt(v, 6)) == Sextet2(p, c) && Letter(SextetAt(v, 0)) == Sextet3(c)
  {
    hide Letter;
    var v := big * 256 + c as nat;
    assert Power2(2) == 4 && Power2(4) == 16 && Power2(6) == 64;
    var q := big / 256;
    assert big == q * 256 + p as nat;
    SextetTwo(big, c as nat);
    SextetFour(q, p as nat, c as nat);
    SextetSix(q, p as nat, c as nat);
  }

  lemma Remainder64(q: int, r: nat)
    requires r < 64
    ensures (q * 64 + r) % 64 == r
  {
  }

  lemma SextetTwo(big: nat, c: nat)
    requires c < 256
    ensures (big * 256 + c) / 4 % 64 == c / 4 && (big * 256 + c) % 64 == c % 64
  {
    assert (big * 256 + c) / 4 == big * 64 + c / 4;
    Remainder64(big, c / 4);
    assert big * 256 + c == (big * 4 + c / 64) * 64 + c % 64;
    Remainder64(big * 4 + c / 64, c % 64);
  }

  lemma SextetFour(q: nat, p: nat, c: nat)
    requires p < 256 && c < 256
    ensures ((q * 256 + p) * 256 + c) / 16 % 64 == p % 4 * 16 + c / 16
  {
    assert ((q * 256 + p) * 256 + c) / 16 == (q * 256 + p) * 16 + c / 16;
    assert (q * 256 + p) * 16 + c / 16 == (q * 64 + p / 4) * 64 + (p % 4 * 16 + c / 16);
    Remainder64(q * 64 + p / 4, p % 4 * 16 + c / 16);
  }

  lemma SextetSix(q: nat, p: nat, c: nat)
    requires p < 256 && c < 256
    ensures ((q * 256 + p) * 256 + c) / 64 % 64 == p % 16 * 4 + c / 64
  {
    assert ((q * 256 + p) * 256 + c) / 64 == (q * 256 + p) * 4 + c / 64;
    assert (q * 256 + p) * 4 + c / 64 == (q * 16 + p / 16) * 64 + (p % 16 * 4 + c / 64);
    Remainder64(q * 16 + p / 16, p % 16 * 4 + c / 64);
  }

  lemma UnboundedEndsInLastByte(s: seq<byte>)
    ensures Unbounded(s) % 256 == LastByte(s) as nat
  {
  }

  /** The letters that are taken off from this shift down. */
  function LettersFrom(v: int, shift: nat): string {
    if shift == 6 then [Letter(SextetAt(v, 6)), Letter(SextetAt(v, 0))] else [Letter(SextetAt(v, shift))]
  }

  lemma UnboundedSnoc(s: seq<byte>, c: byte)
    ensures Unbounded(s + [c]) == Unbounded(s) * 256 + c as nat
  {
    assert (s + [c])[..|s|] == s;
  }

  lemma OneByte(s: seq<byte>, c: byte)
    ensures Prefix(s + [c]) == Prefix(s) + LettersFrom(Unbounded(s) * 256 + c as nat, Rest(|s|) + 8)
  {
    hide Letter, SextetAt, Prefix, Sextet0, Sextet1, Sextet2, Sextet3, Unbounded, LastByte;
    UnboundedEndsInLastByte(s);
    LettersOf(Unbounded(s), LastByte(s), c);
    PrefixSnoc(s, c);
    var n := |s| % 3;
    if n == 0 {
      assert Rest(|s|) + 8 == 2;
    } else if n == 1 {
      assert Rest(|s|) + 8 == 4;
    } else {
      assert Rest(|s|) + 8 == 6;
    }
  }

  lemma LastLetter(s: seq<byte>)
    ensures |s| % 3 == 0 ==> Encode(s) == Padded(Prefix(s))
    ensures |s| % 3 != 0 ==> Encode(s) == Padded(Prefix(s) + [Letter(SextetAt(Unbounded(s) * 256, Rest(|s|) + 8))])
  {
    hide Letter, SextetAt, Prefix, Encode, Sextet0, Sextet1, Sextet2, Sextet3, Unbounded, LastByte, Padded, Rest;
    EncodeIsPrefix(s);
    PrefixRemainder(s);
    LetterOfRest(s);
    var n := |s| % 3;
    if n == 0 {
      PaddedShapes(Prefix(s), '=');
    } else if n == 1 {
      PaddedShapes(Prefix(s), Sextet1(LastByte(s), 0));
    } else {
      PaddedShapes(Prefix(s), Sextet2(LastByte(s), 0));
    }
  }

  lemma LetterOfRest(s: seq<byte>)
    ensures |s| % 3 == 1 ==> Letter(SextetAt(Unbounded(s) * 256, Rest(|s|) + 8)) == Sextet1(LastByte(s), 0)
    ensures |s| % 3 == 2 ==> Letter(SextetAt(Unbounded(s) * 256, Rest(|s|) + 8)) == Sextet2(LastByte(s), 0)
  {
    hide Letter, SextetAt, Sextet0, Sextet1, Sextet2, Sextet3, Unbounded, LastByte;
    UnboundedEndsInLastByte(s);
    LettersOf(Unbounded(s), LastByte(s), 0);
  }

  lemma PaddedShapes(letters: string, x: char)
    ensures |letters| % 4 == 0 ==> Padded(letters) == letters + ""
    ensures |letters| % 4 == 1 ==> Padded(letters + [x]) == letters + [x, '=', '=']
    ensures |letters| % 4 == 2 ==> Padded(letters + [x]) == letters + [x, '=']
  {
    assert |letters + [x]| == |letters| + 1;
    if |letters| % 4 == 1 {
      assert (|letters| + 1) % 4 == 2;
      assert letters + [x] + "==" == letters + [x, '=', '='];
    } else if |letters| % 4 == 2 {
      assert (|letters| + 1) % 4 == 3;
      assert letters + [x] + "=" == letters + [x, '='];
    }
  }

  /** Filled up with padding to a multiple of four. */
  function Padded(letters: string): string {
    var n := |letters| % 4;
    letters + if n == 0 then "" else if n == 1 then "===" else if n == 2 then "==" else "="
  }

  /** The inner loop: letters are taken off until the shift is below zero. */
  method TakeLetters(val: int, shift: int, ghost v: nat) returns (letters: string, valb: int)
    requires val == Wrap(v) && (shift == 2 || shift == 4 || shift == 6)
    ensures valb == if shift == 6 then -6 else shift - 6
    ensures letters == LettersFrom(v, shift)
  {
    hide Letter, SextetAt, Wrap;
    letters, valb := "", shift;
    while valb >= 0
      invariant valb == shift || valb == shift - 6 || (shift == 6 && valb == -6)
      invariant valb == shift ==> letters == ""
      invariant valb == shift - 6 ==> letters == [Letter(SextetAt(v, shift))]
      invariant shift == 6 && valb == -6 ==> letters == LettersFrom(v, shift)
      decreases valb + 6
    {
      WrapKeepsSextets(v, valb);
      letters := letters + [Letter(SextetAt(val, valb))];
      valb := valb - 6;
    }
  }

  method Base64Encode(s: seq<byte>) returns (out: string)
    ensures out == Encode(s)
  {
    hide Letter, SextetAt, Wrap, Encode, Prefix, Unbounded, LettersFrom, Padded;
    StartsEmpty();
    out := "";
    var val, valb := 0, -6;
    for i := 0 to |s|
      invariant val == Wrap(Unbounded(s[..i]))
      invariant valb == Rest(i) && out == Prefix(s[..i])
    {
      assert s[..i + 1] == s[..i] + [s[i]];
      OneByte(s[..i], s[i]);
      UnboundedSnoc(s[..i], s[i]);
      WrapAccumulates(Unbounded(s[..i]), s[i]);
      val := Wrap(val * 256 + s[i] as int);
      var letters;
      letters, valb := TakeLetters(val, valb + 8, Unbounded(s[..i + 1]));
      out := out + letters;
    }
    assert s[..|s|] == s;
    if valb > -6 {
      WrapAccumulates(Unbounded(s), 0);
      WrapKeepsSextets(Unbounded(s) * 256, valb + 8);
      out := out + [Letter(SextetAt(Wrap(val * 256), valb + 8))];
    }
    LastLetter(s);
    out := Pad(out);
  }

  lemma StartsEmpty()
    ensures Wrap(Unbounded([])) == 0 && Prefix([]) == ""
  {
  }

  method Pad(letters: string) returns (out: string)
    ensures out == Padded(letters)
  {
    out := letters;
    ghost var n := 0;
    while |out| % 4 != 0
      invariant |out| == |letters| + n && n <= (4 - |letters| % 4) % 4
      invariant out == letters + seq(n, _ => '=')
      decreases (4 - |letters| % 4) % 4 - n
    {
      out := out + ['='];
      n := n + 1;
    }
  }
}

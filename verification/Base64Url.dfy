// base64url without padding (RFC 4648, sections 3.2 and 5), as Go's
// base64.RawURLEncoding does it: the encoder is strict, the decoder skips
// line breaks and ignores the unused low bits of the last character.
module Base64Url {
  import opened Basics

  type Byte = b: int | 0 <= b < 256

  type Sextet = n: int | 0 <= n < 64

  function EncodeChar(n: Sextet): char {
    if n < 26 then ('A' as int + n) as char
    else if n < 52 then ('a' as int + n - 26) as char
    else if n < 62 then ('0' as int + n - 52) as char
    else if n == 62 then '-'
    else '_'
  }

  function DecodeChar(c: char): Option<Sextet> {
    if 'A' <= c <= 'Z' then Some(c as int - 'A' as int)
    else if 'a' <= c <= 'z' then Some(c as int - 'a' as int + 26)
    else if '0' <= c <= '9' then Some(c as int - '0' as int + 52)
    else if c == '-' then Some(62)
    else if c == '_' then Some(63)
    else None
  }

  // Three bytes x, y, z as four sextets, and back.
  function First(x: Byte): Sextet {
    x / 4
  }

  function Second(x: Byte, y: Byte): Sextet {
    x % 4 * 16 + y / 16
  }

  function Third(y: Byte, z: Byte): Sextet {
    y % 16 * 4 + z / 64
  }

  function Fourth(z: Byte): Sextet {
    z % 64
  }

  function ByteX(a: Sextet, b: Sextet): Byte {
    a * 4 + b / 16
  }

  function ByteY(b: Sextet, c: Sextet): Byte {
    b % 16 * 16 + c / 4
  }

  function ByteZ(c: Sextet, d: Sextet): Byte {
    c % 4 * 64 + d
  }

  function Encode(bs: seq<Byte>): string
    decreases |bs|
  {
    if |bs| == 0 then ""
    else if |bs| == 1 then [EncodeChar(First(bs[0])), EncodeChar(Second(bs[0], 0))]
    else if |bs| == 2 then
      [EncodeChar(First(bs[0])), EncodeChar(Second(bs[0], bs[1])), EncodeChar(Third(bs[1], 0))]
    else
      [EncodeChar(First(bs[0])), EncodeChar(Second(bs[0], bs[1])),
       EncodeChar(Third(bs[1], bs[2])), EncodeChar(Fourth(bs[2]))]
      + Encode(bs[3..])
  }

  function Stripped(c: char): string {
    if c == '\r' || c == '\n' then "" else [c]
  }

  function WithoutLineBreaks(s: string): string {
    if s == "" then ""
    else Stripped(s[0]) + WithoutLineBreaks(s[1..])
  }

  function Decode(s: string): Option<seq<Byte>> {
    DecodeQuads(WithoutLineBreaks(s))
  }

  function DecodeQuads(s: string): Option<seq<Byte>>
    decreases |s|
  {
    if s == "" then Some([])
    else if |s| == 1 then None
    else
      match (DecodeChar(s[0]), DecodeChar(s[1]))
      case (Some(a), Some(b)) =>
        if |s| == 2 then Some([ByteX(a, b)])
        else (
          match DecodeChar(s[2])
          case None => None
          case Some(c) =>
            if |s| == 3 then Some([ByteX(a, b), ByteY(b, c)])
            else
              match (DecodeChar(s[3]), DecodeQuads(s[4..]))
              case (Some(d), Some(rest)) => Some([ByteX(a, b), ByteY(b, c), ByteZ(c, d)] + rest)
              case _ => None
        )
      case _ => None
  }

  // The four sextets are the 24 bits of the three bytes, most significant
  // first.
  lemma SextetsAreBits(x: Byte, y: Byte, z: Byte)
    ensures ((First(x) * 64 + Second(x, y)) * 64 + Third(y, z)) * 64 + Fourth(z) == (x * 256 + y) * 256 + z
  {
  }

  lemma DecodeEncodedChar(n: Sextet)
    ensures DecodeChar(EncodeChar(n)) == Some(n)
  {
  }

  predicate Safe(s: string) {
    forall i | 0 <= i < |s| :: s[i] != '.' && s[i] != '\r' && s[i] != '\n'
  }

  // Only letters, digits, '-' and '_'.
  lemma {:induction false} EncodedSafe(bs: seq<Byte>)
    ensures Safe(Encode(bs))
    decreases |bs|
  {
    hide First, Second, Third, Fourth;
    if |bs| <= 2 {
    } else {
      EncodedSafe(bs[3..]);
    }
  }

  lemma {:induction false} NoLineBreaks(s: string)
    requires '\r' !in s && '\n' !in s
    ensures WithoutLineBreaks(s) == s
  {
    if s == "" {
    } else {
      NoLineBreaks(s[1..]);
      assert s == [s[0]] + s[1..];
    }
  }

  lemma Regroup(x: Byte, y: Byte, z: Byte)
    ensures ByteX(First(x), Second(x, y)) == x
    ensures ByteY(Second(x, y), Third(y, z)) == y
    ensures ByteZ(Third(y, z), Fourth(z)) == z
  {
    assert Second(x, y) / 16 == x % 4 && Second(x, y) % 16 == y / 16;
    assert Third(y, z) / 4 == y % 16 && Third(y, z) % 4 == z / 64;
  }

  lemma DecodeFullQuad(s: string, rest: string, a: Sextet, b: Sextet, c: Sextet, d: Sextet)
    requires s == [EncodeChar(a), EncodeChar(b), EncodeChar(c), EncodeChar(d)] + rest
    requires DecodeQuads(rest).Some?
    ensures DecodeQuads(s) == Some([ByteX(a, b), ByteY(b, c), ByteZ(c, d)] + DecodeQuads(rest).value)
  {
    DecodeEncodedChar(a);
    DecodeEncodedChar(b);
    DecodeEncodedChar(c);
    DecodeEncodedChar(d);
    hide EncodeChar, DecodeChar, ByteX, ByteY, ByteZ;
    assert s[4..] == rest;
  }

  lemma DecodeShortQuad(a: Sextet, b: Sextet, c: Sextet)
    ensures DecodeQuads([EncodeChar(a), EncodeChar(b)]) == Some([ByteX(a, b)])
    ensures DecodeQuads([EncodeChar(a), EncodeChar(b), EncodeChar(c)]) == Some([ByteX(a, b), ByteY(b, c)])
  {
    DecodeEncodedChar(a);
    DecodeEncodedChar(b);
    DecodeEncodedChar(c);
    hide EncodeChar, DecodeChar, ByteX, ByteY, ByteZ;
  }

  lemma {:induction false} QuadsRoundTrip(bs: seq<Byte>)
    ensures DecodeQuads(Encode(bs)) == Some(bs)
    decreases |bs|
  {
    hide EncodeChar, DecodeChar, First, Second, Third, Fourth, ByteX, ByteY, ByteZ, DecodeQuads;
    if |bs| > 2 {
      QuadsRoundTrip(bs[3..]);
      Regroup(bs[0], bs[1], bs[2]);
      DecodeFullQuad(Encode(bs), Encode(bs[3..]),
                     First(bs[0]), Second(bs[0], bs[1]), Third(bs[1], bs[2]), Fourth(bs[2]));
      assert bs == [bs[0], bs[1], bs[2]] + bs[3..];
    } else if |bs| == 2 {
      Regroup(bs[0], bs[1], 0);
      DecodeShortQuad(First(bs[0]), Second(bs[0], bs[1]), Third(bs[1], 0));
      assert bs == [bs[0], bs[1]];
    } else if |bs| == 1 {
      Regroup(bs[0], 0, 0);
      DecodeShortQuad(First(bs[0]), Second(bs[0], 0), 0);
      assert bs == [bs[0]];
    } else {
      DecodeNothing();
    }
  }

  lemma DecodeNothing()
    ensures DecodeQuads("") == Some([])
  {
  }

  // Decoding undoes encoding, on every byte sequence.
  lemma RoundTrip(bs: seq<Byte>)
    ensures Decode(Encode(bs)) == Some(bs)
  {
    EncodedSafe(bs);
    NoLineBreaks(Encode(bs));
    QuadsRoundTrip(bs);
  }

  // ---------------------------------------------------------------------
  // As numbers: RFC 4648, sections 4 and 5, on whole strings of bits
  // ---------------------------------------------------------------------

  // Section 5, table 2, in four parts.
  const UPPER: string := "ABCDEFGHIJKLMNOPQRSTUVWXYZ"
  const LOWER: string := "abcdefghijklmnopqrstuvwxyz"
  const DIGITS: string := "0123456789"
  const ALPHABET: string := UPPER + LOWER + DIGITS + "-_"

  lemma LettersInOrder()
    ensures |UPPER| == |LOWER| == 26 && |DIGITS| == 10
    ensures forall i | 0 <= i < 26 :: UPPER[i] as int == 'A' as int + i
    ensures forall i | 0 <= i < 26 :: LOWER[i] as int == 'a' as int + i
    ensures forall i | 0 <= i < 10 :: DIGITS[i] as int == '0' as int + i
  {
  }

  lemma AlphabetInOrder(n: Sextet)
    ensures |ALPHABET| == 64 && EncodeChar(n) == ALPHABET[n]
  {
    LettersInOrder();
    var u, l, d := UPPER, LOWER, DIGITS;
    assert ALPHABET == u + l + d + "-_";
    if n < 26 {
      assert ALPHABET[n] == u[n];
    } else if n < 52 {
      assert ALPHABET[n] == l[n - 26];
    } else if n < 62 {
      assert ALPHABET[n] == d[n - 52];
    }
  }

  // A character stands for its place in the alphabet, and no other does.
  lemma AlphabetOnly(c: char)
    ensures DecodeChar(c).Some? <==> c in ALPHABET
    ensures DecodeChar(c).Some? ==> ALPHABET[DecodeChar(c).value] == c
  {
    AlphabetInOrder(0);
    hide EncodeChar;
    if DecodeChar(c).Some? {
      AlphabetInOrder(DecodeChar(c).value);
      CharIsItsSextet(c);
    } else {
      forall i | 0 <= i < 64 ensures ALPHABET[i] != c {
        AlphabetInOrder(i);
        DecodeEncodedChar(i);
      }
    }
  }

  lemma CharIsItsSextet(c: char)
    ensures DecodeChar(c).Some? ==> EncodeChar(DecodeChar(c).value) == c
  {
  }

  predicate InAlphabet(s: string) {
    forall i | 0 <= i < |s| :: DecodeChar(s[i]).Some?
  }

  // The digits of a text continue a number in base 64, ...
  function TextValue(acc: nat, s: string): nat
    requires InAlphabet(s)
    decreases |s|
  {
    if s == "" then acc else TextValue(acc * 64 + DecodeChar(s[0]).value, s[1..])
  }

  // ... and bytes one in base 256.
  function BytesValue(acc: nat, bs: seq<Byte>): nat
    decreases |bs|
  {
    if bs == [] then acc else BytesValue(acc * 256 + bs[0], bs[1..])
  }

  lemma TextValue2(acc: nat, s: string)
    requires |s| >= 2 && InAlphabet(s)
    ensures TextValue(acc, s)
            == TextValue((acc * 64 + DecodeChar(s[0]).value) * 64 + DecodeChar(s[1]).value, s[2..])
  {
    hide DecodeChar;
    assert s[1..][1..] == s[2..];
  }

  lemma TextValue4(acc: nat, s: string)
    requires |s| >= 4 && InAlphabet(s)
    ensures var a, b, c, d := DecodeChar(s[0]).value, DecodeChar(s[1]).value, DecodeChar(s[2]).value,
                              DecodeChar(s[3]).value;
            TextValue(acc, s) == TextValue((((acc * 64 + a) * 64 + b) * 64 + c) * 64 + d, s[4..])
  {
    hide DecodeChar, TextValue;
    TextValue2(acc, s);
    TextValue2((acc * 64 + DecodeChar(s[0]).value) * 64 + DecodeChar(s[1]).value, s[2..]);
    assert s[2..][2..] == s[4..];
  }

  lemma TextValue3(acc: nat, s: string)
    requires |s| == 3 && InAlphabet(s)
    ensures TextValue(acc, s)
            == ((acc * 64 + DecodeChar(s[0]).value) * 64 + DecodeChar(s[1]).value) * 64 + DecodeChar(s[2]).value
  {
    hide DecodeChar;
    TextValue2(acc, s);
    assert s[2..] == [s[2]] && s[2..][1..] == "";
  }

  lemma BytesValue1(acc: nat, bs: seq<Byte>)
    requires |bs| >= 1
    ensures BytesValue(acc, bs) == BytesValue(acc * 256 + bs[0], bs[1..])
  {
  }

  lemma BytesValue3(acc: nat, bs: seq<Byte>)
    requires |bs| >= 3
    ensures BytesValue(acc, bs) == BytesValue(((acc * 256 + bs[0]) * 256 + bs[1]) * 256 + bs[2], bs[3..])
  {
    BytesValue1(acc, bs);
    BytesValue1(acc * 256 + bs[0], bs[1..]);
    BytesValue1((acc * 256 + bs[0]) * 256 + bs[1], bs[1..][1..]);
    hide BytesValue;
    assert bs[1..][1..] == bs[2..] && bs[2..][1..] == bs[3..];
  }

  lemma BytesValue2(acc: nat, bs: seq<Byte>)
    requires |bs| == 2
    ensures BytesValue(acc, bs) == (acc * 256 + bs[0]) * 256 + bs[1]
  {
    BytesValue1(acc, bs);
    BytesValue1(acc * 256 + bs[0], bs[1..]);
    assert bs[1..][1..] == [];
    NoValue((acc * 256 + bs[0]) * 256 + bs[1]);
  }

  // How many zero bits are appended to n bytes to make whole characters.
  function Padding(n: nat): nat {
    4 * n % 6
  }

  // How many bits of m characters make no whole byte.
  function Spare(m: nat): nat {
    6 * m % 8
  }

  function Pow2(n: nat): (r: nat)
    ensures r >= 1
  {
    if n == 0 then 1 else 2 * Pow2(n - 1)
  }

  lemma SmallPowers()
    ensures Pow2(0) == 1 && Pow2(2) == 4 && Pow2(4) == 16
  {
    assert Pow2(2) == 2 * Pow2(1) && Pow2(4) == 2 * Pow2(3);
  }

  lemma {:induction false} EncodeValue(acc: nat, bs: seq<Byte>)
    ensures |Encode(bs)| * 6 == 8 * |bs| + Padding(|bs|) && InAlphabet(Encode(bs))
    ensures TextValue(acc, Encode(bs)) == BytesValue(acc, bs) * Pow2(Padding(|bs|))
    decreases |bs|
  {
    hide Encode, TextValue, BytesValue, Pow2;
    if |bs| < 3 {
      ShortEncode(acc, bs);
    } else {
      var rest := bs[3..];
      var next := ((acc * 256 + bs[0]) * 256 + bs[1]) * 256 + bs[2];
      EncodeValue(next, rest);
      EncodeQuad(acc, bs);
      BytesValue3(acc, bs);
      assert Padding(|bs|) == Padding(|rest|);
    }
  }

  // The last one or two bytes, or none.
  lemma ShortEncode(acc: nat, bs: seq<Byte>)
    requires |bs| < 3
    ensures |Encode(bs)| * 6 == 8 * |bs| + Padding(|bs|) && InAlphabet(Encode(bs))
    ensures TextValue(acc, Encode(bs)) == BytesValue(acc, bs) * Pow2(Padding(|bs|))
  {
    hide EncodeChar, DecodeChar, First, Second, Third, Fourth, TextValue, BytesValue, Pow2;
    SmallPowers();
    var s := Encode(bs);
    if |bs| == 0 {
      NoValue(acc);
    } else if |bs| == 1 {
      DecodeEncodedChar(First(bs[0]));
      DecodeEncodedChar(Second(bs[0], 0));
      TextValue2(acc, s);
      NoValue((acc * 64 + First(bs[0])) * 64 + Second(bs[0], 0));
      assert s[2..] == "";
      OneByte(acc, bs);
    } else {
      DecodeEncodedChar(First(bs[0]));
      DecodeEncodedChar(Second(bs[0], bs[1]));
      DecodeEncodedChar(Third(bs[1], 0));
      TextValue3(acc, s);
      BytesValue2(acc, bs);
      TwoBytes(bs[0], bs[1]);
    }
  }

  // Three bytes make four characters.
  lemma EncodeQuad(acc: nat, bs: seq<Byte>)
    requires |bs| >= 3 && InAlphabet(Encode(bs[3..]))
    ensures |Encode(bs)| == 4 + |Encode(bs[3..])| && InAlphabet(Encode(bs))
    ensures var next := ((acc * 256 + bs[0]) * 256 + bs[1]) * 256 + bs[2];
            TextValue(acc, Encode(bs)) == TextValue(next, Encode(bs[3..]))
  {
    hide EncodeChar, DecodeChar, First, Second, Third, Fourth, TextValue;
    var s := Encode(bs);
    DecodeEncodedChar(First(bs[0]));
    DecodeEncodedChar(Second(bs[0], bs[1]));
    DecodeEncodedChar(Third(bs[1], bs[2]));
    DecodeEncodedChar(Fourth(bs[2]));
    assert s[4..] == Encode(bs[3..]);
    TextValue4(acc, s);
    SextetsAreBits(bs[0], bs[1], bs[2]);
  }

  lemma NoValue(acc: nat)
    ensures TextValue(acc, "") == acc == BytesValue(acc, [])
  {
  }

  lemma OneByte(acc: nat, bs: seq<Byte>)
    requires |bs| == 1
    ensures BytesValue(acc, bs) == acc * 256 + bs[0]
    ensures First(bs[0]) * 64 + Second(bs[0], 0) == (bs[0] as int) * 16
  {
    assert bs[1..] == [];
  }

  lemma TwoBytes(x: Byte, y: Byte)
    ensures (First(x) * 64 + Second(x, y)) * 64 + Third(y, 0) == (x * 256 + y) * 4
  {
  }

  // Encoded text is the number of the bytes, most significant first, with
  // zero bits appended up to whole characters: as many characters as that
  // takes, each standing for its place in the alphabet.
  lemma EncodeExact(bs: seq<Byte>)
    ensures var s := Encode(bs);
            && |s| == (8 * |bs| + 5) / 6 && InAlphabet(s)
            && TextValue(0, s) == BytesValue(0, bs) * Pow2(4 * |bs| % 6)
  {
    hide Encode, TextValue, BytesValue, Pow2;
    EncodeValue(0, bs);
  }

  // ---------------------------------------------------------------------
  // What the decoder accepts
  // ---------------------------------------------------------------------

  lemma ValueBits(a: Sextet, b: Sextet, c: Sextet, d: Sextet, acc: nat)
    ensures (acc * 256 + ByteX(a, b) as int) == ((acc * 64 + a) * 64 + b) / 16
    ensures ((acc * 256 + ByteX(a, b)) * 256 + ByteY(b, c) as int) == (((acc * 64 + a) * 64 + b) * 64 + c) / 4
    ensures (((acc * 256 + ByteX(a, b)) * 256 + ByteY(b, c)) * 256 + ByteZ(c, d) as int)
            == (((acc * 64 + a) * 64 + b) * 64 + c) * 64 + d
  {
  }

  // One quad at a time.
  lemma QuadsUnfold(s: string)
    requires |s| >= 4
    ensures DecodeQuads(s).Some? <==> InAlphabet(s[..4]) && DecodeQuads(s[4..]).Some?
    ensures DecodeQuads(s).Some? ==>
              && InAlphabet(s[..4])
              && var a, b, c, d := DecodeChar(s[0]).value, DecodeChar(s[1]).value, DecodeChar(s[2]).value,
                                   DecodeChar(s[3]).value;
                 DecodeQuads(s).value == [ByteX(a, b), ByteY(b, c), ByteZ(c, d)] + DecodeQuads(s[4..]).value
  {
    hide DecodeChar, DecodeQuads, ByteX, ByteY, ByteZ;
    QuadsMatch(s);
    assert s[..4][0] == s[0] && s[..4][1] == s[1] && s[..4][2] == s[2] && s[..4][3] == s[3];
    if DecodeChar(s[0]).Some? && DecodeChar(s[1]).Some? && DecodeChar(s[2]).Some? && DecodeChar(s[3]).Some? {
      assert InAlphabet(s[..4]);
    }
  }

  lemma QuadsMatch(s: string)
    requires |s| >= 4
    ensures var p, q, u, v := DecodeChar(s[0]), DecodeChar(s[1]), DecodeChar(s[2]), DecodeChar(s[3]);
            DecodeQuads(s)
            == if p.Some? && q.Some? && u.Some? && v.Some? && DecodeQuads(s[4..]).Some?
               then Some([ByteX(p.value, q.value), ByteY(q.value, u.value), ByteZ(u.value, v.value)]
                         + DecodeQuads(s[4..]).value)
               else None
  {
    hide DecodeChar, ByteX, ByteY, ByteZ;
  }

  lemma QuadsShort(s: string)
    requires |s| < 4
    ensures DecodeQuads(s).Some? <==> InAlphabet(s) && |s| != 1
    ensures DecodeQuads(s).Some? && |s| == 2 ==>
              DecodeQuads(s).value == [ByteX(DecodeChar(s[0]).value, DecodeChar(s[1]).value)]
    ensures DecodeQuads(s).Some? && |s| == 3 ==>
              DecodeQuads(s).value == [ByteX(DecodeChar(s[0]).value, DecodeChar(s[1]).value),
                                       ByteY(DecodeChar(s[1]).value, DecodeChar(s[2]).value)]
    ensures s == "" ==> DecodeQuads(s) == Some([])
  {
    hide DecodeChar, ByteX, ByteY, ByteZ;
  }

  lemma {:induction false} QuadsExact(acc: nat, s: string)
    ensures DecodeQuads(s).Some? <==> InAlphabet(s) && |s| % 4 != 1
    ensures DecodeQuads(s).Some? ==>
              var bs := DecodeQuads(s).value;
              |bs| == 6 * |s| / 8 && BytesValue(acc, bs) == TextValue(acc, s) / Pow2(Spare(|s|))
    decreases |s|
  {
    hide DecodeChar, DecodeQuads, ByteX, ByteY, ByteZ, BytesValue, TextValue, Pow2;
    SmallPowers();
    if |s| >= 4 {
      var front, rest := s[..4], s[4..];
      QuadsUnfold(s);
      AlphabetSplit(s);
      if InAlphabet(front) {
        var next := (((acc * 64 + DecodeChar(s[0]).value) * 64 + DecodeChar(s[1]).value) * 64
                     + DecodeChar(s[2]).value) * 64 + DecodeChar(s[3]).value;
        QuadsExact(next, rest);
        if DecodeQuads(s).Some? {
          QuadValue(acc, s);
        }
      } else {
        assert !InAlphabet(s);
      }
    } else {
      QuadsShort(s);
      if DecodeQuads(s).Some? {
        ShortValue(acc, s);
      }
    }
  }

  lemma AlphabetSplit(s: string)
    requires |s| >= 4
    ensures InAlphabet(s) <==> InAlphabet(s[..4]) && InAlphabet(s[4..])
    ensures InAlphabet(s[..4]) ==> forall i | 0 <= i < 4 :: DecodeChar(s[i]).Some?
  {
    hide DecodeChar;
    assert s == s[..4] + s[4..];
    assert forall i | 0 <= i < 4 :: s[..4][i] == s[i];
  }

  lemma QuadValue(acc: nat, s: string)
    requires |s| >= 4 && InAlphabet(s) && DecodeQuads(s).Some? && DecodeQuads(s[4..]).Some?
    ensures var next := (((acc * 64 + DecodeChar(s[0]).value) * 64 + DecodeChar(s[1]).value) * 64
                         + DecodeChar(s[2]).value) * 64 + DecodeChar(s[3]).value;
            && TextValue(acc, s) == TextValue(next, s[4..])
            && BytesValue(acc, DecodeQuads(s).value) == BytesValue(next, DecodeQuads(s[4..]).value)
            && |DecodeQuads(s).value| == 3 + |DecodeQuads(s[4..]).value|
  {
    hide DecodeChar, DecodeQuads, ByteX, ByteY, ByteZ, BytesValue, TextValue;
    var bs := DecodeQuads(s).value;
    QuadsUnfold(s);
    ValueBits(DecodeChar(s[0]).value, DecodeChar(s[1]).value, DecodeChar(s[2]).value, DecodeChar(s[3]).value, acc);
    TextValue4(acc, s);
    BytesValue3(acc, bs);
    assert bs[3..] == DecodeQuads(s[4..]).value;
  }

  lemma ShortValue(acc: nat, s: string)
    requires |s| < 4 && |s| != 1 && InAlphabet(s) && DecodeQuads(s).Some?
    ensures var bs := DecodeQuads(s).value;
            |bs| == 6 * |s| / 8 && BytesValue(acc, bs) == TextValue(acc, s) / Pow2(Spare(|s|))
  {
    hide DecodeChar, DecodeQuads, ByteX, ByteY, ByteZ, BytesValue, TextValue, Pow2;
    SmallPowers();
    QuadsShort(s);
    var bs := DecodeQuads(s).value;
    if s == "" {
      NoValue(acc);
    } else if |s| == 2 {
      var a, b := DecodeChar(s[0]).value, DecodeChar(s[1]).value;
      ValueBits(a, b, 0, 0, acc);
      TextValue2(acc, s);
      assert s[2..] == "";
      NoValue((acc * 64 + a) * 64 + b);
      OneByte(acc, bs);
    } else {
      ValueBits(DecodeChar(s[0]).value, DecodeChar(s[1]).value, DecodeChar(s[2]).value, 0, acc);
      TextValue3(acc, s);
      BytesValue2(acc, bs);
    }
  }

  lemma {:induction false} StripAppend(a: string, b: string)
    ensures WithoutLineBreaks(a + b) == WithoutLineBreaks(a) + WithoutLineBreaks(b)
    decreases |a|
  {
    hide Stripped;
    if a == "" {
      assert a + b == b;
    } else {
      assert (a + b)[1..] == a[1..] + b && (a + b)[0] == a[0];
      StripAppend(a[1..], b);
      var one, x, y := Stripped(a[0]), WithoutLineBreaks(a[1..]), WithoutLineBreaks(b);
      assert one + (x + y) == (one + x) + y;
    }
  }

  // A line break makes no difference, wherever it is.
  lemma LineBreaksIgnored(a: string, c: char, b: string)
    requires c == '\r' || c == '\n'
    ensures Decode(a + [c] + b) == Decode(a + b)
  {
    StripAppend(a + [c], b);
    StripAppend(a, [c]);
    StripAppend(a, b);
    assert WithoutLineBreaks([c]) == "" by { assert [c][1..] == ""; }
    assert WithoutLineBreaks(a) + "" == WithoutLineBreaks(a);
  }

  predicate OverAlphabet(s: string) {
    forall i | 0 <= i < |s| :: s[i] in ALPHABET
  }

  lemma AlphabetSame(s: string)
    ensures OverAlphabet(s) <==> InAlphabet(s)
  {
    hide DecodeChar;
    forall i | 0 <= i < |s| ensures s[i] in ALPHABET <==> DecodeChar(s[i]).Some? {
      AlphabetOnly(s[i]);
    }
  }

  // The bytes are all the whole bytes in the bits of the text.
  predicate BytesMatch(bs: seq<Byte>, s: string)
    requires InAlphabet(s)
  {
    |bs| == 6 * |s| / 8 && BytesValue(0, bs) == TextValue(0, s) / Pow2(6 * |s| % 8)
  }

  // Text without line breaks is accepted exactly if it is over the alphabet
  // and not one character too long; it decodes to as many whole bytes as its
  // bits make, whatever the bits left over are.
  lemma DecodeExact(s: string)
    requires '\r' !in s && '\n' !in s
    ensures Decode(s).Some? <==> OverAlphabet(s) && |s| % 4 != 1
    ensures Decode(s).Some? ==> InAlphabet(s) && BytesMatch(Decode(s).value, s)
  {
    hide DecodeChar, DecodeQuads, BytesValue, TextValue, Pow2, WithoutLineBreaks, OverAlphabet;
    NoLineBreaks(s);
    QuadsExact(0, s);
    AlphabetSame(s);
  }
}

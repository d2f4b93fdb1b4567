/**
 * The hexadecimal channel codec that src/lib/rgb.ts, src/lib/colors-gradient/use-hsl.ts
 * and src/lib/colors-gradient/use-color.ts each spell out in the same words: a channel
 * is printed as `n.toString(16).padStart(2, '0')`, and channel k of a hex string is read
 * as `parseInt(hex.substr(1).substr(2 * k, 2), 16)`.
 */
module Hex {
  import opened Js

  /** `n.toString(16).padStart(2, '0')` */
  function ChannelHex(n: Num): string {
    PadStart(NumToString(n, 16), 2, '0')
  }

  /** `hex.substr(1).substr(2 * k, 2)`: the text of channel k. */
  function Chunk(hex: string, k: nat): string {
    Substr(SubstrFrom(hex, 1), 2 * k, 2)
  }

  /** `parseInt(hex.substr(1).substr(2 * k, 2), 16)` */
  function ReadChannel(hex: string, k: nat): Num {
    ParseInt16(Chunk(hex, k))
  }

  /** The only characters a channel reader can look at: indices 1 to 6. */
  function Window(hex: string): string {
    hex[Min(1, |hex|)..Min(7, |hex|)]
  }

  predicate IsHexString(s: string) {
    forall c <- s :: IsHexDigit(c)
  }

  predicate IsLowerHexString(s: string) {
    forall c <- s :: IsLowerHexDigit(c)
  }

  /** A channel reader never looks at the first character nor past index 6. */
  lemma ReadChannelWindow(hex: string, k: nat)
    requires k < 3
    ensures Chunk(hex, k) == Substr(Window(hex), 2 * k, 2)
    ensures ReadChannel(hex, k) == ParseInt16(Substr(Window(hex), 2 * k, 2))
  {
    var m := Min(1, |hex|);
    var rest, w := hex[m..], Window(hex);
    assert |w| == Min(6, |rest|);
    var l := Min(6, |rest|);
    assert w == rest[..l];
    var i, j := Min(2 * k, |rest|), Min(2 * k + 2, |rest|);
    assert Min(2 * k, |w|) == i && Min(2 * k + 2, |w|) == j;
    assert i <= j <= l;
    forall x | 0 <= x < j - i
      ensures w[i..j][x] == rest[i..j][x]
    {
      assert w[i + x] == rest[i + x];
    }
  }

  /** On a string with six hex digits after the first character, channel k is the
      k-th pair of those digits. */
  lemma ChunkOfHex(hex: string, k: nat)
    requires k < 3 && |hex| >= 7
    ensures Chunk(hex, k) == hex[1 + 2 * k..3 + 2 * k]
  {
  }

  /** A byte prints as exactly two lower-case hex digits that read back as the byte. */
  lemma ChannelHexOfByte(n: int)
    requires 0 <= n < 256
    ensures |ChannelHex(Int(n))| == 2
    ensures IsLowerHexString(ChannelHex(Int(n)))
    ensures ValueOf(ChannelHex(Int(n)), 16) == n
  {
    var h := ChannelHex(Int(n));
    DigitsOfSmall(n, 16);
    if n < 16 {
      assert h == ['0', DigitChar(n)];
    } else {
      assert h == [DigitChar(n / 16), DigitChar(n % 16)];
    }
    ValueOfShort(h, 16);
  }

  /** A string of hex digits parses, with `parseInt(_, 16)`, to its value. */
  lemma ParseHexDigits(t: string)
    requires t != [] && IsHexString(t)
    ensures ParseInt16(t) == Int(ValueOf(t, 16))
  {
    assert t[0] in t;
    HexDigitIsNotSpace(t[0]);
    assert TrimStart(t) == t;
    assert t[0] != '-' && t[0] != '+';
    if |t| >= 2 {
      assert t[1] in t;
      assert t[1] != 'x' && t[1] != 'X';
    }
    HexPrefixOfHex(t);
  }

  lemma HexDigitIsNotSpace(c: char)
    requires IsHexDigit(c)
    ensures !IsSpace(c)
  {
  }

  lemma {:induction false} HexPrefixOfHex(t: string)
    requires IsHexString(t)
    ensures HexPrefix(t) == t
  {
    if t != [] {
      assert t[0] in t;
      HexPrefixOfHex(t[1..]);
    }
  }

  /** Two hex digits parse to their value, and printing that value gives the two
      digits back, lower-cased. */
  lemma ParseTwoHexDigits(t: string)
    requires |t| == 2 && IsHexString(t)
    ensures ValueOf(t, 16) < 256
    ensures ParseInt16(t) == Int(ValueOf(t, 16))
    ensures ChannelHex(Int(ValueOf(t, 16))) == LowerString(t)
  {
    ParseHexDigits(t);
    PairValue(t);
    LowerPair(t);
    var d0, d1 := DigitValue(t[0]), DigitValue(t[1]);
    PrintTwoDigits(d0, d1);
    var v := ValueOf(t, 16);
    assert v == d0 * 16 + d1;
    assert ChannelHex(Int(v)) == [DigitChar(d0), DigitChar(d1)];
  }

  lemma PairValue(t: string)
    requires |t| == 2 && IsHexString(t)
    ensures IsHexDigit(t[0]) && IsHexDigit(t[1])
    ensures ValueOf(t, 16) == DigitValue(t[0]) * 16 + DigitValue(t[1]) < 256
  {
    assert t[0] in t && t[1] in t;
    ValueOfShort(t, 16);
  }

  lemma LowerPair(t: string)
    requires |t| == 2 && IsHexString(t)
    ensures IsHexDigit(t[0]) && IsHexDigit(t[1])
    ensures LowerString(t) == [DigitChar(DigitValue(t[0])), DigitChar(DigitValue(t[1]))]
  {
    assert t[0] in t && t[1] in t;
    DigitCharOfValue(t[0]);
    DigitCharOfValue(t[1]);
  }

  /** The byte 16 * d0 + d1 prints as the digits of d0 and d1. */
  lemma PrintTwoDigits(d0: nat, d1: nat)
    requires d0 < 16 && d1 < 16
    ensures ChannelHex(Int(d0 * 16 + d1)) == [DigitChar(d0), DigitChar(d1)]
  {
    if d0 == 0 {
      PrintOneDigit(d1);
      assert DigitChar(0) == '0';
    } else {
      PrintDigitPair(d0, d1);
    }
  }

  lemma PrintOneDigit(d: nat)
    requires d < 16
    ensures ChannelHex(Int(d)) == ['0', DigitChar(d)]
  {
  }

  lemma PrintDigitPair(d0: nat, d1: nat)
    requires 0 < d0 < 16 && d1 < 16
    ensures ChannelHex(Int(d0 * 16 + d1)) == [DigitChar(d0), DigitChar(d1)]
  {
    var v := d0 * 16 + d1;
    assert v / 16 == d0 && v % 16 == d1;
    assert Digits(d0, 16) == [DigitChar(d0)];
    assert Digits(v, 16) == Digits(d0, 16) + [DigitChar(d1)];
  }

  /** Two lower-case hex digits that a byte prints as parse back to the byte. */
  lemma ReadBackByte(n: int)
    requires 0 <= n < 256
    ensures ParseInt16(ChannelHex(Int(n))) == Int(n)
  {
    ChannelHexOfByte(n);
    ParseTwoHexDigits(ChannelHex(Int(n)));
  }

  /** `#` and three bytes printed in hex: each channel reads back as its byte. */
  lemma ReadPrintedBytes(r: int, g: int, b: int)
    requires 0 <= r < 256 && 0 <= g < 256 && 0 <= b < 256
    ensures var hex := "#" + ChannelHex(Int(r)) + ChannelHex(Int(g)) + ChannelHex(Int(b));
      ReadChannel(hex, 0) == Int(r) && ReadChannel(hex, 1) == Int(g) &&
      ReadChannel(hex, 2) == Int(b)
  {
    var h0, h1, h2 := ChannelHex(Int(r)), ChannelHex(Int(g)), ChannelHex(Int(b));
    var hex := "#" + h0 + h1 + h2;
    ChannelHexOfByte(r);
    ChannelHexOfByte(g);
    ChannelHexOfByte(b);
    assert hex[1..3] == h0 && hex[3..5] == h1 && hex[5..7] == h2;
    ReadPrintedByte(hex, 0, r);
    ReadPrintedByte(hex, 1, g);
    ReadPrintedByte(hex, 2, b);
  }

  /** Channel k of a string whose k-th pair is a printed byte reads as that byte. */
  lemma ReadPrintedByte(hex: string, k: nat, n: int)
    requires k < 3 && |hex| >= 7 && 0 <= n < 256 && hex[1 + 2 * k..3 + 2 * k] == ChannelHex(Int(n))
    ensures ReadChannel(hex, k) == Int(n)
  {
    ChunkOfHex(hex, k);
    ReadBackByte(n);
  }

  /** Over one character then six hex digits, channel k reads as the value of its two
      digits, a byte, and prints back as those digits in lowercase. */
  lemma ReadHexChannel(hex: string, k: nat)
    requires k < 3 && |hex| >= 7 && IsHexString(hex[1..7])
    ensures IsHexString(hex[1 + 2 * k..3 + 2 * k])
    ensures ReadChannel(hex, k) == Int(ValueOf(hex[1 + 2 * k..3 + 2 * k], 16))
    ensures ValueOf(hex[1 + 2 * k..3 + 2 * k], 16) < 256
    ensures ChannelHex(ReadChannel(hex, k)) == LowerString(hex[1 + 2 * k..3 + 2 * k])
  {
    var t := hex[1 + 2 * k..3 + 2 * k];
    assert t[0] == hex[1..7][2 * k] && t[1] == hex[1..7][2 * k + 1];
    ChunkOfHex(hex, k);
    ParseTwoHexDigits(t);
  }

  /** A chunk of one hex digit twice reads as 17 times the digit's value. */
  lemma PairChunk(hex: string, k: nat)
    requires k < 3 && |hex| >= 7 && IsHexDigit(hex[1 + 2 * k]) && hex[2 + 2 * k] == hex[1 + 2 * k]
    ensures ReadChannel(hex, k) == Int(17 * DigitValue(hex[1 + 2 * k]))
  {
    ChunkOfHex(hex, k);
    TwinDigits(hex[1 + 2 * k..3 + 2 * k]);
  }

  lemma TwinDigits(t: string)
    requires |t| == 2 && IsHexDigit(t[0]) && t[1] == t[0]
    ensures ParseInt16(t) == Int(17 * DigitValue(t[0]))
  {
    assert IsHexString(t);
    ParseTwoHexDigits(t);
    ValueOfShort(t, 16);
  }
}

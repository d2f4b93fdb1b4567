/**
 * The parts of JavaScript's number and string semantics that the colour library relies
 * on: falsy numbers, `Number.prototype.toString(radix)` on integers, `padStart`,
 * `substr`, `parseInt(_, 16)`, `Number(_)` on a string of decimal digits, and the
 * white-space set shared by `\s` and `parseInt`.
 */
module Js {

  /** A JavaScript number as the colour code produces it: NaN or an integer. A missing
      field of a `Partial<...>` record reads as `undefined`, which every operation of
      the library treats exactly as it treats NaN, so NaN stands for both. */
  datatype Num = NaN | Int(value: int)

  /** JavaScript truthiness of a number: NaN and 0 are the falsy ones. */
  predicate Truthy(n: Num) {
    n.Int? && n.value != 0
  }

  /** `n || 0` */
  function OrZero(n: Num): int {
    if Truthy(n) then n.value else 0
  }

  /** A field as `field || 0` stores it: a falsy value (missing, NaN or zero) becomes 0;
      any other value is kept. */
  predicate Collapsed(stored: int, given: Num) {
    (stored == 0 <==> !Truthy(given)) && (Truthy(given) ==> stored == given.value)
  }

  function Min(a: int, b: int): int {
    if a <= b then a else b
  }

  // ---------------------------------------------------------------- characters

  predicate IsDigit(c: char) {
    '0' <= c <= '9'
  }

  predicate IsHexDigit(c: char) {
    IsDigit(c) || 'a' <= c <= 'f' || 'A' <= c <= 'F'
  }

  predicate IsLowerHexDigit(c: char) {
    IsDigit(c) || 'a' <= c <= 'f'
  }

  /** The value of a base-16 digit of either case. */
  function DigitValue(c: char): (d: nat)
    requires IsHexDigit(c)
    ensures d < 16
    ensures IsDigit(c) <==> d < 10
  {
    if IsDigit(c) then c as int - '0' as int
    else if 'a' <= c <= 'f' then c as int - 'a' as int + 10
    else c as int - 'A' as int + 10
  }

  /** The digit of value d as `toString(radix)` prints it: lower case. */
  function DigitChar(d: nat): (c: char)
    requires d < 16
    ensures IsLowerHexDigit(c) && DigitValue(c) == d
  {
    if d < 10 then ('0' as int + d) as char else ('a' as int + d - 10) as char
  }

  /** ASCII lower-casing: the folding that a regular expression's `i` flag amounts to
      for the letters of the library's patterns. */
  function Lower(c: char): char {
    if 'A' <= c <= 'Z' then (c as int + 32) as char else c
  }

  function LowerString(s: string): (r: string)
    ensures |r| == |s| && forall k :: 0 <= k < |s| ==> r[k] == Lower(s[k])
  {
    seq(|s|, k requires 0 <= k < |s| => Lower(s[k]))
  }

  /** JavaScript's WhiteSpace and LineTerminator characters: what `\s` matches in a
      regular expression and what `parseInt` skips before the number. */
  predicate IsSpace(c: char) {
    var n := c as int;
    n == 0x09 || n == 0x0A || n == 0x0B || n == 0x0C || n == 0x0D || n == 0x20 ||
    n == 0xA0 || n == 0x1680 || 0x2000 <= n <= 0x200A || n == 0x2028 || n == 0x2029 ||
    n == 0x202F || n == 0x205F || n == 0x3000 || n == 0xFEFF
  }

  // ---------------------------------------------------------------- printing

  /** The digits of n in base radix, most significant first, without leading zeros. */
  function Digits(n: nat, radix: nat): (s: string)
    requires radix == 10 || radix == 16
    ensures |s| >= 1
    ensures forall c <- s :: IsLowerHexDigit(c) && DigitValue(c) < radix
    decreases n
  {
    if n < radix then [DigitChar(n)] else Digits(n / radix, radix) + [DigitChar(n % radix)]
  }

  /** `Number.prototype.toString(radix)` on an integer; with radix 10 this is also what a
      template literal `${n}` prints. */
  function IntToString(n: int, radix: nat): (s: string)
    requires radix == 10 || radix == 16
    ensures s != [] && (s[0] == '-' <==> n < 0)
    ensures forall c <- s[1..] :: IsLowerHexDigit(c) && DigitValue(c) < radix
    ensures forall c <- s :: c == '-' || (IsLowerHexDigit(c) && DigitValue(c) < radix)
  {
    if n < 0 then
      var d := Digits(-n, radix);
      assert ("-" + d)[1..] == d;
      "-" + d
    else
      var d := Digits(n, radix);
      assert d[0] in d && forall i | 1 <= i < |d| :: d[1..][i - 1] == d[i];
      d
  }

  /** `n.toString(radix)`: NaN prints as "NaN" in every radix. */
  function NumToString(n: Num, radix: nat): string
    requires radix == 10 || radix == 16
  {
    match n
    case NaN => "NaN"
    case Int(v) => IntToString(v, radix)
  }

  /** `s.padStart(length, fill)` with a one-character fill. */
  function PadStart(s: string, length: nat, fill: char): string {
    if |s| >= length then s else seq(length - |s|, _ => fill) + s
  }

  // ---------------------------------------------------------------- substrings

  /** `s.substr(start)` for a non-negative start: the rest of s, empty past its end. */
  function SubstrFrom(s: string, start: nat): string {
    s[Min(start, |s|)..]
  }

  /** `s.substr(start, length)` for non-negative arguments: both ends clipped to s. */
  function Substr(s: string, start: nat, length: nat): string {
    s[Min(start, |s|)..Min(start + length, |s|)]
  }

  // ---------------------------------------------------------------- reading numbers

  /** The value of a string of digits (either case) in base radix; on a string of
      decimal digits with radix 10 this is `Number(s)`, i.e. the unary `+s`. */
  function ValueOf(s: string, radix: nat): nat
    requires forall c <- s :: IsHexDigit(c) && DigitValue(c) < radix
  {
    if s == [] then 0
    else
      var high := ValueOf(s[..|s| - 1], radix);
      MulNonNegative(high, radix);
      high * radix + DigitValue(s[|s| - 1])
  }

  lemma MulNonNegative(a: nat, b: nat)
    ensures a * b >= 0
  {
  }

  /** s without its leading white space: what is dropped is all white space, and what
      remains is empty or starts with a character that is not. */
  function TrimStart(s: string): (t: string)
    ensures |t| <= |s| && t == s[|s| - |t|..]
    ensures forall k | 0 <= k < |s| - |t| :: IsSpace(s[k])
    ensures t != [] ==> !IsSpace(t[0])
  {
    if s != [] && IsSpace(s[0]) then
      var t := TrimStart(s[1..]);
      assert forall k | 1 <= k < |s| - |t| :: s[k] == s[1..][k - 1];
      t
    else s
  }

  /** The longest prefix of s made of base-16 digits. */
  function HexPrefix(s: string): (p: string)
    ensures |p| <= |s| && p == s[..|p|]
    ensures forall c <- p :: IsHexDigit(c)
    ensures |p| < |s| ==> !IsHexDigit(s[|p|])
  {
    if s != [] && IsHexDigit(s[0]) then [s[0]] + HexPrefix(s[1..]) else []
  }

  /** `parseInt(s, 16)`: skip leading white space, take one optional sign and an
      optional `0x`/`0X` prefix, then read the longest run of base-16 digits; when that
      run is empty the result is NaN. */
  function ParseInt16(s: string): Num {
    var t := TrimStart(s);
    var negative := t != [] && t[0] == '-';
    var u := if t != [] && (t[0] == '-' || t[0] == '+') then t[1..] else t;
    var v := if |u| >= 2 && u[0] == '0' && (u[1] == 'x' || u[1] == 'X') then u[2..] else u;
    var digits := HexPrefix(v);
    if digits == [] then NaN
    else
      var magnitude: int := ValueOf(digits, 16);
      Int(if negative then -magnitude else magnitude)
  }

  // ---------------------------------------------------------------- lemmas

  /** Reading back what `Digits` printed gives the number. */
  lemma {:induction false} DigitsValue(n: nat, radix: nat)
    requires radix == 10 || radix == 16
    ensures ValueOf(Digits(n, radix), radix) == n
    decreases n
  {
    if n >= radix {
      var q, d := n / radix, n % radix;
      var s := Digits(q, radix);
      DigitsValue(q, radix);
      var t := s + [DigitChar(d)];
      assert Digits(n, radix) == t;
      assert t[..|t| - 1] == s && t[|t| - 1] == DigitChar(d);
      assert ValueOf(t, radix) == ValueOf(s, radix) * radix + d;
      if radix == 10 {
        assert n == q * 10 + d;
      } else {
        assert n == q * 16 + d;
      }
    }
  }

  /** One-digit and two-digit numbers print as one or two digits. */
  lemma DigitsOfSmall(n: nat, radix: nat)
    requires (radix == 10 || radix == 16) && n < radix * radix
    ensures n < radix ==> Digits(n, radix) == [DigitChar(n)]
    ensures n >= radix ==> Digits(n, radix) == [DigitChar(n / radix), DigitChar(n % radix)]
  {
    if n >= radix {
      var q, d := n / radix, n % radix;
      if radix == 10 {
        assert q < 10;
      } else {
        assert q < 16;
      }
      assert Digits(q, radix) == [DigitChar(q)];
      assert Digits(n, radix) == [DigitChar(q)] + [DigitChar(d)];
    }
  }

  /** Three-digit decimal numbers print as three digits. */
  lemma DigitsOfThreeDecimal(n: nat)
    requires 100 <= n < 1000
    ensures Digits(n, 10) == [DigitChar(n / 100), DigitChar(n / 10 % 10), DigitChar(n % 10)]
  {
    DigitsOfSmall(n / 10, 10);
  }

  /** The value of a string of two or three digits, spelled out. */
  lemma ValueOfShort(s: string, radix: nat)
    requires forall c <- s :: IsHexDigit(c) && DigitValue(c) < radix
    ensures |s| == 1 ==> ValueOf(s, radix) == DigitValue(s[0])
    ensures |s| == 2 ==> ValueOf(s, radix) == DigitValue(s[0]) * radix + DigitValue(s[1])
    ensures |s| == 3 ==>
      ValueOf(s, radix) == (DigitValue(s[0]) * radix + DigitValue(s[1])) * radix + DigitValue(s[2])
  {
    if |s| == 2 {
      assert s[..1][..0] == [];
    } else if |s| == 3 {
      assert s[..2][..1] == s[..1];
      assert s[..1][..0] == [];
    }
  }

  /** The digit printed for a digit's value is the digit itself, lower-cased. */
  lemma DigitCharOfValue(c: char)
    requires IsHexDigit(c)
    ensures DigitChar(DigitValue(c)) == Lower(c)
  {
  }

  /** If a text starts with p + t, it starts with p, and t follows. */
  lemma Extend(s: string, p: string, t: string)
    requires |p| + |t| <= |s| && s[..|p| + |t|] == p + t
    ensures s[..|p|] == p && s[|p|..|p| + |t|] == t
  {
    assert s[..|p|] == (p + t)[..|p|];
    assert s[|p|..|p| + |t|] == (p + t)[|p|..];
  }
}

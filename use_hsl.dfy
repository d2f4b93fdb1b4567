/** The free functions of src/lib/colors-gradient/use-hsl.ts over plain records: unlike
    the `Rgb` and `Hsl` classes, these records keep whatever numbers they are given,
    NaN included. */
module UseHsl {
  import opened Wrappers
  import opened Js
  import opened Hex
  import RgbColor
  import HslColor
  import Regex

  datatype Rgb = Rgb(red: Num, green: Num, blue: Num)

  datatype Hsl = Hsl(hue: Num, saturation: Num, lightness: Num)

  predicate IsByte(n: Num) {
    n.Int? && 0 <= n.value < 256
  }

  predicate IsByteRgb(c: Rgb) {
    IsByte(c.red) && IsByte(c.green) && IsByte(c.blue)
  }

  // ---------------------------------------------------------------- hex codec

  /** `hexToRgb(hex)`: the three channels as `parseInt` reads them, NaN kept. */
  function HexToRgb(hex: string): (c: Rgb)
    ensures Collapsed(RgbColor.FromHex(hex).red, c.red)
    ensures Collapsed(RgbColor.FromHex(hex).green, c.green)
    ensures Collapsed(RgbColor.FromHex(hex).blue, c.blue)
  {
    Rgb(ReadChannel(hex, 0), ReadChannel(hex, 1), ReadChannel(hex, 2))
  }

  /** `rgbToHex(rgb, showHash)` */
  function RgbToHex(c: Rgb, showHash: bool): string {
    (if showHash then "#" else "") + ChannelHex(c.red) + ChannelHex(c.green) + ChannelHex(c.blue)
  }

  /** Leaving the hash out drops exactly the leading `#`. */
  lemma RgbToHexWithoutHash(c: Rgb)
    ensures RgbToHex(c, true) == "#" + RgbToHex(c, false)
  {
  }

  /** On numbers, `rgbToHex` prints what `Rgb.toHex` prints. */
  lemma RgbToHexAgrees(r: int, g: int, b: int, showHash: bool)
    ensures RgbToHex(Rgb(Int(r), Int(g), Int(b)), showHash) ==
            RgbColor.ToHex(RgbColor.Rgb(r, g, b), showHash)
  {
  }

  /** `hexToRgb(rgbToHex(c))` gives c back when its channels are bytes. */
  lemma HexRoundTrip(c: Rgb)
    requires IsByteRgb(c)
    ensures HexToRgb(RgbToHex(c, true)) == c
  {
    ReadPrintedBytes(c.red.value, c.green.value, c.blue.value);
  }

  /** One character then six hex digits: every channel is a byte, and `rgbToHex` gives
      `#` and those six digits in lowercase. */
  lemma HexToHex(hex: string)
    requires |hex| >= 7 && IsHexString(hex[1..7])
    ensures IsByteRgb(HexToRgb(hex))
    ensures RgbToHex(HexToRgb(hex), true) == "#" + LowerString(hex[1..7])
  {
    ReadHexChannel(hex, 0);
    ReadHexChannel(hex, 1);
    ReadHexChannel(hex, 2);
    RgbColor.FromHexOfHex(hex);
    var f := RgbColor.FromHex(hex);
    assert HexToRgb(hex) == Rgb(Int(f.red), Int(f.green), Int(f.blue));
    RgbToHexAgrees(f.red, f.green, f.blue, true);
  }

  /** A chunk that does not start like a number (a hex digit, white space or a sign) or
      that is empty reads as NaN, where `Rgb.fromHex` would store 0. */
  lemma NotHexIsNaN(hex: string, k: nat)
    requires var t := Chunk(hex, k);
      t != [] ==> !IsHexDigit(t[0]) && !IsSpace(t[0]) && t[0] != '+' && t[0] != '-'
    ensures ReadChannel(hex, k) == NaN
  {
  }

  /** For instance, a red chunk `zz` reads as NaN while `Rgb.fromHex` stores 0. */
  lemma NaNExample(hex: string)
    requires hex == "#zz0000"
    ensures HexToRgb(hex) == Rgb(NaN, Int(0), Int(0))
    ensures RgbColor.FromHex(hex) == RgbColor.Rgb(0, 0, 0)
  {
    NotHexIsNaN(hex, 0);
    PairChunk(hex, 1);
    PairChunk(hex, 2);
  }

  // ---------------------------------------------------------------- CSS text

  /** `rgbToString(rgb)`: `rgb(r,g,b)`, with no `%`. */
  function RgbToString(c: Rgb): string {
    "rgb(" + NumToString(c.red, 10) + "," + NumToString(c.green, 10) + "," +
    NumToString(c.blue, 10) + ")"
  }

  /** `Rgb.fromString` reads `rgbToString` of byte channels back. */
  lemma RgbToStringParses(c: Rgb)
    requires IsByteRgb(c)
    ensures RgbColor.FromString(RgbToString(c)) ==
            Ok(RgbColor.Rgb(c.red.value, c.green.value, c.blue.value))
  {
    var r, g, b := c.red.value, c.green.value, c.blue.value;
    var t1, t2, t3 := IntToString(r, 10), IntToString(g, 10), IntToString(b, 10);
    Regex.DecimalToken(Regex.Max255, r);
    Regex.DecimalToken(Regex.Max255, g);
    Regex.DecimalToken(Regex.Max255, b);
    assert RgbToString(c) == "rgb" + "(" + t1 + "," + t2 + "," + t3 + ")" + "";
    RgbColor.FromStringOfParts("rgb", t1, ",", t2, ",", t3, "");
  }

  /** `hslToString(hsl)` */
  function HslToString(c: Hsl): string {
    "hsl(" + NumToString(c.hue, 10) + "," + NumToString(c.saturation, 10) + "%," +
    NumToString(c.lightness, 10) + "%)"
  }

  /** On numbers, `hslToString` prints what `Hsl.toString` prints, so `Hsl.fromString`
      reads it back whenever the hue lies in 0..360 and the other fields in 0..100. */
  lemma HslToStringAgrees(h: int, s: int, l: int)
    ensures HslToString(Hsl(Int(h), Int(s), Int(l))) == HslColor.ToString(HslColor.Hsl(h, s, l))
    ensures HslColor.InRange(HslColor.Hsl(h, s, l)) ==>
      HslColor.FromString(HslToString(Hsl(Int(h), Int(s), Int(l)))) == Ok(HslColor.Hsl(h, s, l))
  {
    if HslColor.InRange(HslColor.Hsl(h, s, l)) {
      HslColor.ToStringRoundTrip(HslColor.Hsl(h, s, l));
    }
  }

  // ------------------------------------------------------------------ setters

  /** `setLightness(hsl, lightness)`: a copy with the lightness replaced as given (no
      `|| 0` here); the argument record is a value and stays as it was. */
  function SetLightness(c: Hsl, lightness: Num): (r: Hsl)
    ensures r.lightness == lightness && r.hue == c.hue && r.saturation == c.saturation
  {
    c.(lightness := lightness)
  }

  /** A second `setLightness` overrides the first, and setting the current lightness
      gives an equal record. */
  lemma SetLightnessLaws(c: Hsl, x: Num, y: Num)
    ensures SetLightness(SetLightness(c, x), y) == SetLightness(c, y)
    ensures SetLightness(c, c.lightness) == c
    ensures HslToString(SetLightness(c, x)) ==
      "hsl(" + NumToString(c.hue, 10) + "," + NumToString(c.saturation, 10) + "%," +
      NumToString(x, 10) + "%)"
  {
  }
}

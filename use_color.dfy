/** `useColor(hex)` of src/lib/colors-gradient/use-color.ts: five lighter and five darker
    variants of a colour, as hex strings. Every number the code handles is an integer
    (a parsed channel, or a channel plus or minus i times an integer distance over 5),
    so `Math.floor` of the quotient is the exact floor, which Dafny's `/` by a positive
    divisor computes. */
module UseColor {
  import opened Js
  import opened Hex
  import UseHsl

  /** The module's own `hexToRgb(hex)`: the triple `[r, g, b]`. */
  function HexToRgb(hex: string): (c: (Num, Num, Num))
    ensures c == (UseHsl.HexToRgb(hex).red, UseHsl.HexToRgb(hex).green, UseHsl.HexToRgb(hex).blue)
  {
    (ReadChannel(hex, 0), ReadChannel(hex, 1), ReadChannel(hex, 2))
  }

  // -------------------------------------------------------- the loop's arithmetic

  /** `Math.floor(255 - c)`: the distance to white. */
  function Distance(c: Num): Num {
    match c
    case NaN => NaN
    case Int(v) => Int(255 - v)
  }

  /** `Math.floor(c + (i * d / 5))` */
  function Up(c: Num, d: Num, i: int): Num {
    if c.Int? && d.Int? then Int(c.value + (i * d.value) / 5) else NaN
  }

  /** `Math.floor(c - (i * d / 5))` */
  function Down(c: Num, d: Num, i: int): Num {
    if c.Int? && d.Int? then Int(c.value + (-(i * d.value)) / 5) else NaN
  }

  /** The template literal of one entry: `#` and the three channels, each in base 16
      padded to two characters. */
  function Entry(r: Num, g: Num, b: Num): string {
    "#" + ChannelHex(r) + ChannelHex(g) + ChannelHex(b)
  }

  // ------------------------------------------------------------- specification

  /** Step i of the lighter half: c moved i fifths of the way to 255, rounded down. */
  function Lighter(c: int, i: int): int {
    c + (i * (255 - c)) / 5
  }

  /** Step i of the darker half: c minus i fifths of its distance to white, that
      distance rounded up. */
  function Darker(c: int, i: int): int {
    c - (i * (255 - c) + 4) / 5
  }

  /** Channel c in entry j of the palette: the lighter steps 1 to 5, then the darker
      steps 1 to 5. A NaN channel stays NaN. */
  function Shade(c: Num, j: nat): Num {
    match c
    case NaN => NaN
    case Int(v) => Int(if j < 5 then Lighter(v, j + 1) else Darker(v, j - 4))
  }

  /** Entry j of the palette over base channels r, g and b: each channel shaded alike. */
  function EntryOf(r: Num, g: Num, b: Num, j: nat): string {
    Entry(Shade(r, j), Shade(g, j), Shade(b, j))
  }

  /** The ten entries over base channels r, g and b. */
  function PaletteOf(r: Num, g: Num, b: Num): (p: seq<string>)
    ensures |p| == 10
  {
    seq(10, j requires 0 <= j => EntryOf(r, g, b, j))
  }

  /** What `useColor(hex)` returns. */
  function Palette(hex: string): (p: seq<string>)
    ensures |p| == 10
  {
    var rgb := HexToRgb(hex);
    PaletteOf(rgb.0, rgb.1, rgb.2)
  }

  /** The lighter loop's step is the lighter shade. */
  lemma UpIsLighter(c: Num, i: int)
    requires 1 <= i <= 5
    ensures Up(c, Distance(c), i) == Shade(c, i - 1)
  {
  }

  /** The darker loop's step is the darker shade: flooring c - x/5 takes away x/5
      rounded up. */
  lemma DownIsDarker(c: Num, i: int)
    requires 1 <= i <= 5
    ensures Down(c, Distance(c), i) == Shade(c, i + 4)
  {
    if c.Int? {
      FloorOfNegatedFifth(i * (255 - c.value));
    }
  }

  lemma FloorOfNegatedFifth(x: int)
    ensures (-x) / 5 == -((x + 4) / 5)
  {
    var q, r := (x + 4) / 5, (x + 4) % 5;
    assert x + 4 == 5 * q + r && 0 <= r < 5;
    assert -x == 5 * (-q) + (4 - r);
  }

  // -------------------------------------------------------------------- method

  /** The entry the lighter loop pushes at step i. */
  function LighterStep(r: Num, g: Num, b: Num, i: int): string {
    Entry(Up(r, Distance(r), i), Up(g, Distance(g), i), Up(b, Distance(b), i))
  }

  /** The entry the darker loop pushes at step i. */
  function DarkerStep(r: Num, g: Num, b: Num, i: int): string {
    Entry(Down(r, Distance(r), i), Down(g, Distance(g), i), Down(b, Distance(b), i))
  }

  /** The entries the lighter loop has pushed so far. */
  predicate LighterPushed(r: Num, g: Num, b: Num, lighter: seq<string>) {
    forall j :: 0 <= j < |lighter| ==> lighter[j] == LighterStep(r, g, b, j + 1)
  }

  /** The entries the darker loop has pushed so far. */
  predicate DarkerPushed(r: Num, g: Num, b: Num, darker: seq<string>) {
    forall j :: 0 <= j < |darker| ==> darker[j] == DarkerStep(r, g, b, j + 1)
  }

  lemma PushLighter(r: Num, g: Num, b: Num, lighter: seq<string>, i: int)
    requires |lighter| == i - 1 && LighterPushed(r, g, b, lighter)
    ensures LighterPushed(r, g, b, lighter + [LighterStep(r, g, b, i)])
  {
    var pushed := lighter + [LighterStep(r, g, b, i)];
    forall j | 0 <= j < |pushed|
      ensures pushed[j] == LighterStep(r, g, b, j + 1)
    {
      if j < |lighter| {
        assert pushed[j] == lighter[j];
      }
    }
  }

  lemma PushDarker(r: Num, g: Num, b: Num, darker: seq<string>, i: int)
    requires |darker| == i - 1 && DarkerPushed(r, g, b, darker)
    ensures DarkerPushed(r, g, b, darker + [DarkerStep(r, g, b, i)])
  {
    var pushed := darker + [DarkerStep(r, g, b, i)];
    forall j | 0 <= j < |pushed|
      ensures pushed[j] == DarkerStep(r, g, b, j + 1)
    {
      if j < |darker| {
        assert pushed[j] == darker[j];
      }
    }
  }

  /** The entries the two loops push make up the palette. */
  lemma LoopsMakePalette(r: Num, g: Num, b: Num, lighter: seq<string>, darker: seq<string>)
    requires |lighter| == 5 && |darker| == 5
    requires LighterPushed(r, g, b, lighter) && DarkerPushed(r, g, b, darker)
    ensures lighter + darker == PaletteOf(r, g, b)
  {
    var p, q := PaletteOf(r, g, b), lighter + darker;
    forall j | 0 <= j < 10
      ensures q[j] == p[j]
    {
      PaletteAt(r, g, b, lighter, darker, j);
    }
  }

  /** Entry j of the two loops' output is entry j of the palette. */
  lemma PaletteAt(r: Num, g: Num, b: Num, lighter: seq<string>, darker: seq<string>, j: nat)
    requires |lighter| == 5 && |darker| == 5 && j < 10
    requires LighterPushed(r, g, b, lighter) && DarkerPushed(r, g, b, darker)
    ensures (lighter + darker)[j] == PaletteOf(r, g, b)[j]
  {
    assert PaletteOf(r, g, b)[j] == EntryOf(r, g, b, j);
    if j < 5 {
      assert (lighter + darker)[j] == lighter[j] == LighterStep(r, g, b, j + 1);
      StepsAreEntries(r, g, b, j + 1);
    } else {
      assert (lighter + darker)[j] == darker[j - 5] == DarkerStep(r, g, b, j - 4);
      StepsAreEntries(r, g, b, j - 4);
    }
  }

  /** Step i of each loop pushes the palette's entry for that step. */
  lemma StepsAreEntries(r: Num, g: Num, b: Num, i: int)
    requires 1 <= i <= 5
    ensures LighterStep(r, g, b, i) == EntryOf(r, g, b, i - 1)
    ensures DarkerStep(r, g, b, i) == EntryOf(r, g, b, i + 4)
  {
    UpIsLighter(r, i);
    UpIsLighter(g, i);
    UpIsLighter(b, i);
    DownIsDarker(r, i);
    DownIsDarker(g, i);
    DownIsDarker(b, i);
  }

  /** `useColor(hex)`: the two loops push the lighter and then the darker entries. */
  method UseColor(hex: string) returns (colors: seq<string>)
    ensures colors == Palette(hex)
  {
    var rgb := HexToRgb(hex);
    var r, g, b := rgb.0, rgb.1, rgb.2;
    var rDif, gDif, bDif := Distance(r), Distance(g), Distance(b);

    var lighter: seq<string> := [];
    var i := 1;
    while i <= 5
      invariant 1 <= i <= 6 && |lighter| == i - 1 && LighterPushed(r, g, b, lighter)
    {
      PushLighter(r, g, b, lighter, i);
      lighter := lighter + [Entry(Up(r, rDif, i), Up(g, gDif, i), Up(b, bDif, i))];
      i := i + 1;
    }

    var darker: seq<string> := [];
    i := 1;
    while i <= 5
      invariant 1 <= i <= 6 && |darker| == i - 1 && DarkerPushed(r, g, b, darker)
    {
      PushDarker(r, g, b, darker, i);
      darker := darker + [Entry(Down(r, rDif, i), Down(g, gDif, i), Down(b, bDif, i))];
      i := i + 1;
    }

    colors := lighter + darker;
    LoopsMakePalette(r, g, b, lighter, darker);
  }

  // ---------------------------------------------------------------- properties

  /** The lighter steps stay between c and 255 and never go down; the fifth is 255. */
  lemma LighterSteps(c: int, i: int, j: int)
    requires c <= 255 && 0 <= i <= j <= 5
    ensures c <= Lighter(c, i) <= Lighter(c, j) <= 255
    ensures Lighter(c, 5) == 255
  {
    var d := 255 - c;
    assert i * d <= j * d <= 5 * d;
    assert (5 * d) / 5 == d;
  }

  /** The darker steps never go up, never pass c, and the fifth is 2c - 255: the distance
      to white taken away, not the distance to black. */
  lemma DarkerSteps(c: int, i: int, j: int)
    requires c <= 255 && 0 <= i <= j <= 5
    ensures 2 * c - 255 <= Darker(c, j) <= Darker(c, i) <= c
    ensures Darker(c, 5) == 2 * c - 255
  {
    var d := 255 - c;
    assert i * d <= j * d <= 5 * d;
    assert (5 * d + 4) / 5 == d;
  }

  /** When no base channel is NaN, the fifth lighter entry is white. */
  lemma FifthLighterIsWhite(r: Num, g: Num, b: Num)
    requires r.Int? && g.Int? && b.Int?
    ensures PaletteOf(r, g, b)[4] == "#ffffff"
  {
    assert PaletteOf(r, g, b)[4] == EntryOf(r, g, b, 4);
    assert Shade(r, 4) == Int(255) by {
      assert (5 * (255 - r.value)) / 5 == 255 - r.value;
    }
    assert Shade(g, 4) == Int(255) by {
      assert (5 * (255 - g.value)) / 5 == 255 - g.value;
    }
    assert Shade(b, 4) == Int(255) by {
      assert (5 * (255 - b.value)) / 5 == 255 - b.value;
    }
    White();
  }

  /** 255 prints as `ff`. */
  lemma White()
    ensures ChannelHex(Int(255)) == "ff"
  {
    PrintTwoDigits(15, 15);
  }

  // ------------------------------------------------------ well-formed entries

  /** `#` and six lower-case hex digits. */
  predicate IsHexColor(s: string) {
    |s| == 7 && s[0] == '#' && IsLowerHexString(s[1..])
  }

  /** One character, then six hex digits. */
  predicate IsHexText(hex: string) {
    |hex| >= 7 && IsHexString(hex[1..7])
  }

  /** Base channel k of a hex colour: a byte. */
  function Channel(hex: string, k: nat): (c: int)
    requires IsHexText(hex) && k < 3
    ensures ReadChannel(hex, k) == Int(c) && 0 <= c < 256
  {
    ReadHexChannel(hex, k);
    ReadChannel(hex, k).value
  }

  /** Over a hex colour, all ten entries are well formed exactly when every base
      channel is at least 128. */
  lemma AllWellFormedHex(hex: string)
    requires IsHexText(hex)
    ensures (forall j :: 0 <= j < 10 ==> IsHexColor(Palette(hex)[j])) <==>
      (Channel(hex, 0) >= 128 && Channel(hex, 1) >= 128 && Channel(hex, 2) >= 128)
  {
    var r, g, b := Channel(hex, 0), Channel(hex, 1), Channel(hex, 2);
    assert Palette(hex) == PaletteOf(Int(r), Int(g), Int(b));
    AllWellFormed(r, g, b);
  }

  /** Over byte channels, all ten entries are well formed exactly when every channel is
      at least 128; otherwise the last darker entry prints a negative channel with its
      `-`. */
  lemma AllWellFormed(r: int, g: int, b: int)
    requires 0 <= r < 256 && 0 <= g < 256 && 0 <= b < 256
    ensures (forall j :: 0 <= j < 10 ==> IsHexColor(PaletteOf(Int(r), Int(g), Int(b))[j])) <==>
      (r >= 128 && g >= 128 && b >= 128)
  {
    var p := PaletteOf(Int(r), Int(g), Int(b));
    if r >= 128 && g >= 128 && b >= 128 {
      forall j | 0 <= j < 10
        ensures IsHexColor(p[j])
      {
        assert p[j] == EntryOf(Int(r), Int(g), Int(b), j);
        ShadeIsByte(r, j);
        ShadeIsByte(g, j);
        ShadeIsByte(b, j);
        EntryOfBytes(Shade(Int(r), j), Shade(Int(g), j), Shade(Int(b), j));
      }
    } else {
      assert p[9] == EntryOf(Int(r), Int(g), Int(b), 9);
      DarkerSteps(r, 5, 5);
      DarkerSteps(g, 5, 5);
      DarkerSteps(b, 5, 5);
      NegativeEntry(Shade(Int(r), 9), Shade(Int(g), 9), Shade(Int(b), 9));
    }
  }

  /** From a byte of at least 128, every shade is a byte. */
  lemma ShadeIsByte(c: int, j: nat)
    requires 128 <= c <= 255 && j < 10
    ensures Shade(Int(c), j).Int? && 0 <= Shade(Int(c), j).value < 256
  {
    if j < 5 {
      LighterSteps(c, j + 1, j + 1);
    } else {
      DarkerSteps(c, j - 4, 5);
    }
  }

  /** Three bytes print as a well-formed entry. */
  lemma EntryOfBytes(r: Num, g: Num, b: Num)
    requires r.Int? && g.Int? && b.Int?
    requires 0 <= r.value < 256 && 0 <= g.value < 256 && 0 <= b.value < 256
    ensures IsHexColor(Entry(r, g, b))
  {
    ChannelHexOfByte(r.value);
    ChannelHexOfByte(g.value);
    ChannelHexOfByte(b.value);
    var e := Entry(r, g, b);
    assert e[1..] == ChannelHex(r) + ChannelHex(g) + ChannelHex(b);
  }

  /** An entry with a negative channel is not well formed. */
  lemma NegativeEntry(r: Num, g: Num, b: Num)
    requires r.Int? && g.Int? && b.Int?
    requires r.value < 0 || g.value < 0 || b.value < 0
    ensures !IsHexColor(Entry(r, g, b))
  {
    var x, y, z := ChannelHex(r), ChannelHex(g), ChannelHex(b);
    AfterHash(x, y, z);
    if r.value < 0 {
      MinusPrinted(r.value);
    } else if g.value < 0 {
      MinusPrinted(g.value);
    } else {
      MinusPrinted(b.value);
    }
    MinusNotHex(x, y, z);
  }

  lemma AfterHash(x: string, y: string, z: string)
    ensures ("#" + x + y + z)[1..] == x + y + z
  {
  }

  lemma MinusNotHex(x: string, y: string, z: string)
    requires '-' in x || '-' in y || '-' in z
    ensures !IsLowerHexString(x + y + z)
  {
    assert '-' in x + y + z;
  }

  /** A negative channel prints with a `-`. */
  lemma MinusPrinted(v: int)
    requires v < 0
    ensures '-' in ChannelHex(Int(v))
  {
    var t := IntToString(v, 16);
    assert t == "-" + Digits(-v, 16);
    assert ChannelHex(Int(v)) == t && t[0] in t;
  }

  // ------------------------------------------------------ channel independence

  /** Each channel of an entry comes from the same base channel alone: two well-formed
      entries at the same position over base colours that agree on a channel agree on
      that channel's two digits. */
  lemma ChannelIndependence(r1: Num, g1: Num, b1: Num, r2: Num, g2: Num, b2: Num, j: nat)
    requires j < 10
    requires IsHexColor(PaletteOf(r1, g1, b1)[j]) && IsHexColor(PaletteOf(r2, g2, b2)[j])
    ensures r1 == r2 ==> PaletteOf(r1, g1, b1)[j][1..3] == PaletteOf(r2, g2, b2)[j][1..3]
    ensures g1 == g2 ==> PaletteOf(r1, g1, b1)[j][3..5] == PaletteOf(r2, g2, b2)[j][3..5]
    ensures b1 == b2 ==> PaletteOf(r1, g1, b1)[j][5..7] == PaletteOf(r2, g2, b2)[j][5..7]
  {
    assert PaletteOf(r1, g1, b1)[j] == EntryOf(r1, g1, b1, j);
    assert PaletteOf(r2, g2, b2)[j] == EntryOf(r2, g2, b2, j);
    EntryDigits(Shade(r1, j), Shade(g1, j), Shade(b1, j));
    EntryDigits(Shade(r2, j), Shade(g2, j), Shade(b2, j));
  }

  /** The digits of each channel in a well-formed entry. */
  lemma EntryDigits(r: Num, g: Num, b: Num)
    requires IsHexColor(Entry(r, g, b))
    ensures Entry(r, g, b)[1..3] == ChannelHex(r)
    ensures Entry(r, g, b)[3..5] == ChannelHex(g)
    ensures Entry(r, g, b)[5..7] == ChannelHex(b)
  {
    var x, y, z := ChannelHex(r), ChannelHex(g), ChannelHex(b);
    assert Entry(r, g, b) == "#" + x + y + z;
    PrintedSlices("#" + x + y + z, x, y, z);
  }

  /** Cut a well-formed entry into its three channels. */
  lemma PrintedSlices(e: string, x: string, y: string, z: string)
    requires e == "#" + x + y + z && |e| == 7 && |x| >= 2 && |y| >= 2 && |z| >= 2
    ensures e[1..3] == x && e[3..5] == y && e[5..7] == z
  {
    assert |x| == 2 && |y| == 2 && |z| == 2;
  }

  // ------------------------------------------------------------------ examples

  /** `#ffffff` gives ten copies of `#ffffff`; so does any seven characters ending in
      six `f`s, the first character being skipped. */
  lemma WhiteExample(hex: string)
    requires |hex| == 7 && forall i | 1 <= i < 7 :: hex[i] == 'f'
    ensures Palette(hex) == seq(10, _ => "#ffffff")
  {
    GreyChannels(hex, 'f');
    WhitePalette();
  }

  /** Six equal hex digits after the first character: every channel is that digit
      twice, 17 times its value. */
  lemma GreyChannels(hex: string, c: char)
    requires |hex| == 7 && IsHexDigit(c) && forall i | 1 <= i < 7 :: hex[i] == c
    ensures var v := Int(17 * DigitValue(c)); HexToRgb(hex) == (v, v, v)
  {
    PairChunk(hex, 0);
    PairChunk(hex, 1);
    PairChunk(hex, 2);
  }

  lemma WhitePalette()
    ensures PaletteOf(Int(255), Int(255), Int(255)) == seq(10, _ => "#ffffff")
  {
    var p := PaletteOf(Int(255), Int(255), Int(255));
    White();
    forall j | 0 <= j < 10
      ensures p[j] == "#ffffff"
    {
      assert p[j] == EntryOf(Int(255), Int(255), Int(255), j);
      assert Shade(Int(255), j) == Int(255);
    }
  }

  /** `#000000` (or any seven characters ending in six `0`s) gives the lighter entries
      `#333333` to `#ffffff`, and darker channels of -51 i, printed with a minus sign. */
  lemma BlackExample(hex: string)
    requires |hex| == 7 && forall i | 1 <= i < 7 :: hex[i] == '0'
    ensures Palette(hex)[..5] == ["#333333", "#666666", "#999999", "#cccccc", "#ffffff"]
    ensures Palette(hex)[5..] == ["#-33-33-33", "#-66-66-66", "#-99-99-99", "#-cc-cc-cc", "#-ff-ff-ff"]
  {
    var z := Int(0);
    assert Palette(hex) == PaletteOf(z, z, z) by {
      GreyChannels(hex, '0');
    }
    BlackLighter(z);
    BlackDarker(z);
  }

  lemma BlackLighter(z: Num)
    requires z == Int(0)
    ensures PaletteOf(z, z, z)[..5] ==
      ["#333333", "#666666", "#999999", "#cccccc", "#ffffff"]
  {
    var p := PaletteOf(z, z, z);
    BlackLighterFirst(z);
    BlackLighterLast(z);
    FiveFrom(p, 0);
  }

  lemma BlackLighterFirst(z: Num)
    requires z == Int(0)
    ensures PaletteOf(z, z, z)[0] == "#333333"
    ensures PaletteOf(z, z, z)[1] == "#666666"
    ensures PaletteOf(z, z, z)[2] == "#999999"
  {
    BlackEntry(z, 0, 3, '3');
    BlackEntry(z, 1, 6, '6');
    BlackEntry(z, 2, 9, '9');
  }

  lemma BlackLighterLast(z: Num)
    requires z == Int(0)
    ensures PaletteOf(z, z, z)[3] == "#cccccc"
    ensures PaletteOf(z, z, z)[4] == "#ffffff"
  {
    BlackEntry(z, 3, 12, 'c');
    BlackEntry(z, 4, 15, 'f');
  }

  lemma BlackDarker(z: Num)
    requires z == Int(0)
    ensures PaletteOf(z, z, z)[5..] ==
      ["#-33-33-33", "#-66-66-66", "#-99-99-99", "#-cc-cc-cc", "#-ff-ff-ff"]
  {
    var p := PaletteOf(z, z, z);
    BlackDarkerFirst(z);
    BlackDarkerLast(z);
    FiveFrom(p, 5);
  }

  lemma BlackDarkerFirst(z: Num)
    requires z == Int(0)
    ensures PaletteOf(z, z, z)[5] == "#-33-33-33"
    ensures PaletteOf(z, z, z)[6] == "#-66-66-66"
    ensures PaletteOf(z, z, z)[7] == "#-99-99-99"
  {
    BlackEntry(z, 5, 3, '3');
    BlackEntry(z, 6, 6, '6');
    BlackEntry(z, 7, 9, '9');
  }

  lemma BlackDarkerLast(z: Num)
    requires z == Int(0)
    ensures PaletteOf(z, z, z)[8] == "#-cc-cc-cc"
    ensures PaletteOf(z, z, z)[9] == "#-ff-ff-ff"
  {
    BlackEntry(z, 8, 12, 'c');
    BlackEntry(z, 9, 15, 'f');
  }

  /** Five consecutive elements of a sequence, listed. */
  lemma FiveFrom(p: seq<string>, i: nat)
    requires |p| == i + 5 || (i == 0 && |p| >= 5)
    ensures p[i..i + 5] == [p[i], p[i + 1], p[i + 2], p[i + 3], p[i + 4]]
    ensures |p| == i + 5 ==> p[i..] == p[i..i + 5]
    ensures i == 0 ==> p[..5] == p[i..i + 5]
  {
  }

  /** Entry j over black spelled out, with digit d printed as c. */
  lemma BlackEntry(z: Num, j: nat, d: nat, c: char)
    requires z == Int(0)
    requires j < 10 && 0 < d < 16 && Shade(z, j) == Int(if j < 5 then 17 * d else -17 * d)
    requires DigitChar(d) == c
    ensures j < 5 ==> PaletteOf(z, z, z)[j] == ['#', c, c, c, c, c, c]
    ensures j >= 5 ==> PaletteOf(z, z, z)[j] == ['#', '-', c, c, '-', c, c, '-', c, c]
  {
    BlackShade(z, j, d);
    if j < 5 {
      var x := [c, c];
      assert "#" + x + x + x == ['#', c, c, c, c, c, c];
    } else {
      var x := ['-', c, c];
      assert "#" + x + x + x == ['#', '-', c, c, '-', c, c, '-', c, c];
    }
  }

  /** Entry j over black: every channel is 17 d for the lighter half and -17 d for the
      darker half, printed as d twice, with a `-` for the darker half. */
  lemma BlackShade(z: Num, j: nat, d: nat)
    requires z == Int(0)
    requires j < 10 && 0 < d < 16 && Shade(z, j) == Int(if j < 5 then 17 * d else -17 * d)
    ensures var x := if j < 5 then [DigitChar(d), DigitChar(d)]
                     else ['-', DigitChar(d), DigitChar(d)];
      PaletteOf(z, z, z)[j] == "#" + x + x + x
  {
    var p := PaletteOf(z, z, z);
    assert p[j] == EntryOf(z, z, z, j);
    if j < 5 {
      PrintTwoDigits(d, d);
      assert 17 * d == d * 16 + d;
    } else {
      NegativePair(d);
    }
  }

  /** -17 d prints as `-` and d twice. */
  lemma NegativePair(d: nat)
    requires 0 < d < 16
    ensures ChannelHex(Int(-17 * d)) == ['-', DigitChar(d), DigitChar(d)]
  {
    PrintTwoDigits(d, d);
    assert 17 * d == d * 16 + d;
  }
}

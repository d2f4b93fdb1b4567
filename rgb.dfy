/** The `Rgb` value object: three channels, built from a partial record, from a
    `#rrggbb` string or from a CSS `rgb(...)` string, printed back as hex or as CSS
    text, and copied with one channel replaced. */
module RgbColor {
  import opened Wrappers
  import opened Js
  import opened Hex
  import opened Regex

  datatype Rgb = Rgb(red: int, green: int, blue: int)

  /** `new Rgb({red, green, blue})`; NaN also stands for a missing field. */
  function NewRgb(red: Num, green: Num, blue: Num): (c: Rgb)
    ensures Collapsed(c.red, red) && Collapsed(c.green, green) && Collapsed(c.blue, blue)
  {
    Rgb(OrZero(red), OrZero(green), OrZero(blue))
  }

  /** Building from channels that are already numbers gives them back. */
  lemma NewRgbOfInts(r: int, g: int, b: int)
    ensures NewRgb(Int(r), Int(g), Int(b)) == Rgb(r, g, b)
  {
  }

  // ---------------------------------------------------------------------- hex

  /** `Rgb.fromHex(hex)`: three base-16 chunks after the first character. */
  function FromHex(hex: string): Rgb {
    NewRgb(ReadChannel(hex, 0), ReadChannel(hex, 1), ReadChannel(hex, 2))
  }

  /** `fromHex` never looks at the first character nor past index 6. */
  lemma FromHexWindow(hex1: string, hex2: string)
    requires Window(hex1) == Window(hex2)
    ensures FromHex(hex1) == FromHex(hex2)
  {
    ReadChannelWindow(hex1, 0);
    ReadChannelWindow(hex1, 1);
    ReadChannelWindow(hex1, 2);
    ReadChannelWindow(hex2, 0);
    ReadChannelWindow(hex2, 1);
    ReadChannelWindow(hex2, 2);
  }

  /** `color.toHex(showHash)` */
  function ToHex(c: Rgb, showHash: bool): string {
    var digits := ChannelHex(Int(c.red)) + ChannelHex(Int(c.green)) + ChannelHex(Int(c.blue));
    if showHash then "#" + digits else digits
  }

  predicate InByteRange(c: Rgb) {
    0 <= c.red < 256 && 0 <= c.green < 256 && 0 <= c.blue < 256
  }

  /** Leaving the hash out drops exactly the leading `#`. */
  lemma ToHexWithoutHash(c: Rgb)
    ensures ToHex(c, true) == "#" + ToHex(c, false)
  {
  }

  /** In-range channels print as `#` and six lowercase hex digits. */
  lemma ToHexShape(c: Rgb)
    requires InByteRange(c)
    ensures |ToHex(c, true)| == 7 && ToHex(c, true)[0] == '#'
    ensures IsLowerHexString(ToHex(c, true)[1..])
  {
    ChannelHexOfByte(c.red);
    ChannelHexOfByte(c.green);
    ChannelHexOfByte(c.blue);
    var h := ToHex(c, true);
    forall k | 1 <= k < 7
      ensures IsLowerHexDigit(h[k])
    {
      if k < 3 {
        assert h[k] == ChannelHex(Int(c.red))[k - 1];
      } else if k < 5 {
        assert h[k] == ChannelHex(Int(c.green))[k - 3];
      } else {
        assert h[k] == ChannelHex(Int(c.blue))[k - 5];
      }
    }
  }

  /** `Rgb.fromHex(color.toHex())` gives the colour back when its channels are bytes. */
  lemma HexRoundTrip(c: Rgb)
    requires InByteRange(c)
    ensures FromHex(ToHex(c, true)) == c
  {
    HashedHex(c);
    ReadPrintedBytes(c.red, c.green, c.blue);
    NewRgbOfInts(c.red, c.green, c.blue);
  }

  /** With the hash, `toHex` is `#` followed by the three channels. */
  lemma HashedHex(c: Rgb)
    ensures ToHex(c, true) ==
      "#" + ChannelHex(Int(c.red)) + ChannelHex(Int(c.green)) + ChannelHex(Int(c.blue))
  {
    var h0, h1, h2 := ChannelHex(Int(c.red)), ChannelHex(Int(c.green)), ChannelHex(Int(c.blue));
    assert ToHex(c, true) == "#" + (h0 + h1 + h2);
    Regroup("#", h0, h1, h2);
  }

  lemma Regroup(a: string, b: string, c: string, d: string)
    ensures a + (b + c + d) == a + b + c + d
  {
  }

  /** One character then six hex digits: every channel is a byte, and printing the
      colour back gives `#` and those six digits in lowercase. */
  lemma FromHexOfHex(hex: string)
    requires |hex| >= 7 && IsHexString(hex[1..7])
    ensures InByteRange(FromHex(hex))
    ensures ToHex(FromHex(hex), true) == "#" + LowerString(hex[1..7])
  {
    ReadHexChannel(hex, 0);
    ReadHexChannel(hex, 1);
    ReadHexChannel(hex, 2);
    var c := FromHex(hex);
    assert Int(c.red) == ReadChannel(hex, 0) && Int(c.green) == ReadChannel(hex, 1);
    assert Int(c.blue) == ReadChannel(hex, 2);
    LowerSix(hex);
  }

  /** Lowercasing the six digits of a hex colour works pair by pair. */
  lemma LowerSix(hex: string)
    requires |hex| >= 7
    ensures LowerString(hex[1..7]) == LowerString(hex[1..3]) + LowerString(hex[3..5]) + LowerString(hex[5..7])
  {
    assert hex[1..7] == hex[1..3] + hex[3..5] + hex[5..7];
    LowerStringConcat3(hex[1..3], hex[3..5], hex[5..7]);
  }

  lemma LowerStringConcat3(a: string, b: string, c: string)
    ensures LowerString(a + b + c) == LowerString(a) + LowerString(b) + LowerString(c)
  {
  }

  // ------------------------------------------------------------------ setters

  /** `color.setRed(red)`: a new colour with red replaced (falsy becomes 0). */
  function SetRed(c: Rgb, red: Num): (r: Rgb)
    ensures Collapsed(r.red, red) && r.green == c.green && r.blue == c.blue
  {
    NewRgb(red, Int(c.green), Int(c.blue))
  }

  /** `color.setGreen(green)` */
  function SetGreen(c: Rgb, green: Num): (r: Rgb)
    ensures Collapsed(r.green, green) && r.red == c.red && r.blue == c.blue
  {
    NewRgb(Int(c.red), green, Int(c.blue))
  }

  /** `color.setBlue(blue)` */
  function SetBlue(c: Rgb, blue: Num): (r: Rgb)
    ensures Collapsed(r.blue, blue) && r.red == c.red && r.green == c.green
  {
    NewRgb(Int(c.red), Int(c.green), blue)
  }

  /** A second set of the same channel overrides the first, setting a channel to its
      current value changes nothing, and setters of different channels commute. */
  lemma SetterLaws(c: Rgb, x: Num, y: Num)
    ensures SetRed(SetRed(c, x), y) == SetRed(c, y) && SetRed(c, Int(c.red)) == c
    ensures SetGreen(SetGreen(c, x), y) == SetGreen(c, y) && SetGreen(c, Int(c.green)) == c
    ensures SetBlue(SetBlue(c, x), y) == SetBlue(c, y) && SetBlue(c, Int(c.blue)) == c
    ensures SetRed(SetGreen(c, x), y) == SetGreen(SetRed(c, y), x)
    ensures SetRed(SetBlue(c, x), y) == SetBlue(SetRed(c, y), x)
    ensures SetGreen(SetBlue(c, x), y) == SetBlue(SetGreen(c, y), x)
  {
  }

  // ----------------------------------------------------------------- CSS text

  /** `^rgb\s?\(\s?` */
  const Head: seq<Atom> := [Char('r'), Char('g'), Char('b'), OptSpace, Char('('), OptSpace]

  /** `\s?\)` */
  const Tail: seq<Atom> := [OptSpace, Char(')')]

  /** The lengths the head takes before a digit: `r`, `g`, `b`, no space, `(`, no space. */
  const HeadSteps: seq<nat> := [1, 1, 1, 0, 1, 0]

  /** The pattern `fromString` runs: three byte groups, `[\,\s]*` between them; matched
      case-insensitively and with no end anchor. */
  function Pattern(): seq<Atom> {
    Head + Body(Max255, CommaSpaces, Max255, CommaSpaces, Max255, Tail)
  }

  const NotAnRgb: string := "Não é um Rgb válido"

  lemma PatternShape()
    ensures EndShape(Tail) && Groups(Head) == []
    ensures Groups(Pattern()) == [Max255, Max255, Max255]
  {
    GroupsNone(Head);
    BodyGroups(Max255, CommaSpaces, Max255, CommaSpaces, Max255, Tail);
    GroupsConcat(Head, Body(Max255, CommaSpaces, Max255, CommaSpaces, Max255, Tail));
  }

  /** `Rgb.fromString(color)`: the error stands for the exception thrown on no match.
      Every channel it returns is a byte. */
  function FromString(color: string): (r: Result<Rgb, string>)
    ensures r.Ok? ==> exists ls: seq<nat> :: Accepts(Pattern(), color, 0, ls)
    ensures forall ls: seq<nat> :: Accepts(Pattern(), color, 0, ls) ==> r.Ok?
    ensures r.Err? ==> r.error == NotAnRgb
    ensures r.Ok? ==> InByteRange(r.value)
  {
    match Exec(Pattern(), color)
    case None => Err(NotAnRgb)
    case Some(m) =>
      MatchTokens(color);
      CapturesInRange(m);
      Ok(NewRgb(Int(TokenValue(m[0])), Int(TokenValue(m[1])), Int(TokenValue(m[2]))))
  }

  /** A match captures three tokens of the pattern's groups. */
  lemma MatchTokens(color: string)
    requires Exec(Pattern(), color).Some?
    ensures var m := Exec(Pattern(), color).value;
      |m| == 3 && IsToken(Max255, m[0]) && IsToken(Max255, m[1]) && IsToken(Max255, m[2])
  {
    var m := Exec(Pattern(), color).value;
    var g := Groups(Pattern());
    assert |m| == |g| && forall k :: 0 <= k < |m| ==> IsToken(g[k], m[k]);
    PatternShape();
    assert IsToken(g[0], m[0]) && IsToken(g[1], m[1]) && IsToken(g[2], m[2]);
  }

  /** The three captures read as bytes. */
  lemma CapturesInRange(m: seq<string>)
    requires |m| == 3 && IsToken(Max255, m[0]) && IsToken(Max255, m[1]) && IsToken(Max255, m[2])
    ensures IsDecimal(m[0]) && IsDecimal(m[1]) && IsDecimal(m[2])
    ensures InByteRange(NewRgb(Int(TokenValue(m[0])), Int(TokenValue(m[1])), Int(TokenValue(m[2]))))
  {
    TokenInRange(Max255, m[0]);
    TokenInRange(Max255, m[1]);
    TokenInRange(Max255, m[2]);
    NewRgbOfInts(TokenValue(m[0]), TokenValue(m[1]), TokenValue(m[2]));
  }

  /** `color.toString()`: note the `%` after green and blue. */
  function ToString(c: Rgb): string {
    "rgb(" + IntToString(c.red, 10) + "," + IntToString(c.green, 10) + "%," +
    IntToString(c.blue, 10) + "%)"
  }

  /** `rgb(`, in any case, then a digit. */
  predicate Opening(s: string) {
    |s| >= 5 && Lower(s[0]) == 'r' && Lower(s[1]) == 'g' && Lower(s[2]) == 'b' &&
    s[3] == '(' && IsDigit(s[4])
  }

  /** Before a digit, the head has one way through: `rgb(` and no spaces. */
  lemma HeadOnlyWay(s: string)
    requires Opening(s)
    ensures Accepts(Head, s, 0, HeadSteps) && Total(HeadSteps) == 4
    ensures forall lh: seq<nat> :: Accepts(Head, s, 0, lh) ==> lh == HeadSteps
  {
    forall lh: seq<nat> | Accepts(Head, s, 0, lh)
      ensures lh == HeadSteps
    {
      HeadWay(s, lh);
    }
    HeadAccepts(s);
  }

  lemma HeadWay(s: string, lh: seq<nat>)
    requires Opening(s) && Accepts(Head, s, 0, lh)
    ensures lh == HeadSteps
  {
    assert !IsSpace(s[3]) && !IsSpace(s[4]);
    var h1, h2, h3, h4, h5 := Head[1..], Head[2..], Head[3..], Head[4..], Head[5..];
    assert h1[1..] == h2 && h2[1..] == h3 && h3[1..] == h4 && h4[1..] == h5;
    assert lh[0] == 1 && Accepts(h1, s, 1, lh[1..]);
    assert lh[1] == 1 && Accepts(h2, s, 2, lh[2..]);
    assert lh[2] == 1 && Accepts(h3, s, 3, lh[3..]);
    assert lh[3] == 0 && Accepts(h4, s, 3, lh[4..]);
    assert lh[4] == 1 && Accepts(h5, s, 4, lh[5..]);
    assert lh[5] == 0;
  }

  lemma HeadAccepts(s: string)
    requires Opening(s)
    ensures Accepts(Head, s, 0, HeadSteps) && Total(HeadSteps) == 4
  {
    assert !IsSpace(s[3]) && !IsSpace(s[4]);
    var h1, h2, h3, h4, h5 := Head[1..], Head[2..], Head[3..], Head[4..], Head[5..];
    assert h1[1..] == h2 && h2[1..] == h3 && h3[1..] == h4 && h4[1..] == h5 && h5[1..] == [];
    assert Accepts(h5, s, 4, [0]);
    assert Accepts(h4, s, 3, [1, 0]);
    assert Accepts(h3, s, 3, [0, 1, 0]);
    assert Accepts(h2, s, 2, [1, 0, 1, 0]);
    assert Accepts(h1, s, 1, [1, 1, 0, 1, 0]);
  }

  /** A closing parenthesis lets the tail through. */
  lemma TailAt(s: string, i: nat)
    requires i < |s| && s[i] == ')'
    ensures Accepts(Tail, s, i, [0, 1])
  {
    assert Tail[1..] == [Char(')')] && Tail[1..][1..] == [];
  }

  /** Three digit runs after `rgb(`, parted by commas and whitespace and closed by `)`:
      the text is accepted exactly when each run is a byte token (a numeral in 0..255,
      no leading zero in three digits), and the channels are then the runs' values. */
  lemma FromStringOfRuns(s: string, x1: nat, y0: nat, y1: nat, z0: nat, z1: nat)
    requires Opening(s) && ThreeRuns(s, 4, x1, y0, y1, z0, z1) && s[z1] == ')'
    requires SepFits(CommaSpaces, s, x1, y0) && SepFits(CommaSpaces, s, y1, z0)
    ensures IsDecimal(s[4..x1]) && IsDecimal(s[y0..y1]) && IsDecimal(s[z0..z1])
    ensures FromString(s).Ok? <==>
      IsToken(Max255, s[4..x1]) && IsToken(Max255, s[y0..y1]) && IsToken(Max255, s[z0..z1])
    ensures FromString(s).Ok? ==>
      FromString(s).value == Rgb(TokenValue(s[4..x1]), TokenValue(s[y0..y1]), TokenValue(s[z0..z1]))
  {
    RunsMatch(s, x1, y0, y1, z0, z1);
    var m := Exec(Pattern(), s);
    if m.Some? {
      assert m.value == [s[4..x1], s[y0..y1], s[z0..z1]];
      ReadCaptures(s, m.value);
    }
  }

  /** The match over three such runs, and what it captures. */
  lemma RunsMatch(s: string, x1: nat, y0: nat, y1: nat, z0: nat, z1: nat)
    requires Opening(s) && ThreeRuns(s, 4, x1, y0, y1, z0, z1) && s[z1] == ')'
    requires SepFits(CommaSpaces, s, x1, y0) && SepFits(CommaSpaces, s, y1, z0)
    ensures Exec(Pattern(), s).Some? <==>
      IsToken(Max255, s[4..x1]) && IsToken(Max255, s[y0..y1]) && IsToken(Max255, s[z0..z1])
    ensures Exec(Pattern(), s).Some? ==> Exec(Pattern(), s).value == [s[4..x1], s[y0..y1], s[z0..z1]]
  {
    HeadOnlyWay(s);
    PatternShape();
    TailAt(s, z1);
    HeadBodyExec(Head, HeadSteps, Max255, CommaSpaces, Max255, CommaSpaces, Max255, Tail,
                 s, x1, y0, y1, z0, z1);
  }

  /** What `fromString` makes of the captures of a match. */
  lemma ReadCaptures(s: string, m: seq<string>)
    requires Exec(Pattern(), s) == Some(m)
    ensures |m| == 3 && IsDecimal(m[0]) && IsDecimal(m[1]) && IsDecimal(m[2])
    ensures FromString(s) == Ok(Rgb(TokenValue(m[0]), TokenValue(m[1]), TokenValue(m[2])))
  {
    MatchTokens(s);
    TokenInRange(Max255, m[0]);
    TokenInRange(Max255, m[1]);
    TokenInRange(Max255, m[2]);
    var v0, v1, v2 := TokenValue(m[0]), TokenValue(m[1]), TokenValue(m[2]);
    assert FromString(s) == Ok(NewRgb(Int(v0), Int(v1), Int(v2)));
    NewRgbOfInts(v0, v1, v2);
  }

  predicate IsNumeral(t: string) {
    t != [] && IsDecimal(t)
  }

  /** A non-empty run of `[\,\s]`. */
  predicate IsSeparator(a: string) {
    a != [] && forall c <- a :: c == ',' || IsSpace(c)
  }

  /** `rgb` in any case. */
  predicate IsRgbWord(w: string) {
    |w| == 3 && Lower(w[0]) == 'r' && Lower(w[1]) == 'g' && Lower(w[2]) == 'b'
  }

  /** `rgb(` a sep b sep c `)` and anything after: accepted exactly when a, b and c are
      byte tokens, and then read as (a, b, c). */
  lemma FromStringOfParts(w: string, t1: string, a: string, t2: string, b: string, t3: string,
                          rest: string)
    requires IsRgbWord(w) && IsNumeral(t1) && IsNumeral(t2) && IsNumeral(t3)
    requires IsSeparator(a) && IsSeparator(b)
    ensures var s := w + "(" + t1 + a + t2 + b + t3 + ")" + rest;
      (FromString(s).Ok? <==> IsToken(Max255, t1) && IsToken(Max255, t2) && IsToken(Max255, t3)) &&
      (FromString(s).Ok? ==> FromString(s).value == Rgb(TokenValue(t1), TokenValue(t2), TokenValue(t3)))
  {
    var s := w + "(" + t1 + a + t2 + b + t3 + ")" + rest;
    PartsMatch(w, t1, a, t2, b, t3, rest);
    ReadMatch(s, t1, t2, t3);
  }

  /** `fromString` succeeds exactly when the pattern matches, and reads its captures. */
  lemma ReadMatch(s: string, t1: string, t2: string, t3: string)
    requires IsDecimal(t1) && IsDecimal(t2) && IsDecimal(t3)
    requires Exec(Pattern(), s) == None || Exec(Pattern(), s) == Some([t1, t2, t3])
    ensures Exec(Pattern(), s) == None ==> FromString(s) == Err(NotAnRgb)
    ensures Exec(Pattern(), s) == Some([t1, t2, t3]) ==>
      FromString(s) == Ok(Rgb(TokenValue(t1), TokenValue(t2), TokenValue(t3)))
  {
    if Exec(Pattern(), s) != None {
      ReadCaptures(s, [t1, t2, t3]);
    }
  }

  lemma PartsMatch(w: string, t1: string, a: string, t2: string, b: string, t3: string, rest: string)
    requires IsRgbWord(w) && IsNumeral(t1) && IsNumeral(t2) && IsNumeral(t3)
    requires IsSeparator(a) && IsSeparator(b)
    ensures var s := w + "(" + t1 + a + t2 + b + t3 + ")" + rest;
      (Exec(Pattern(), s).Some? <==> IsToken(Max255, t1) && IsToken(Max255, t2) && IsToken(Max255, t3)) &&
      (Exec(Pattern(), s).Some? ==> Exec(Pattern(), s).value == [t1, t2, t3])
  {
    var s := w + "(" + t1 + a + t2 + b + t3 + ")" + rest;
    var x1 := 4 + |t1|;
    var y0 := x1 + |a|;
    var y1 := y0 + |t2|;
    var z0 := y1 + |b|;
    var z1 := z0 + |t3|;
    Layout(w, t1, a, t2, b, t3, rest);
    RunsMatchAs(s, x1, y0, y1, z0, z1, t1, t2, t3);
  }

  lemma RunsMatchAs(s: string, x1: nat, y0: nat, y1: nat, z0: nat, z1: nat,
                    t1: string, t2: string, t3: string)
    requires Opening(s) && ThreeRuns(s, 4, x1, y0, y1, z0, z1) && s[z1] == ')'
    requires SepFits(CommaSpaces, s, x1, y0) && SepFits(CommaSpaces, s, y1, z0)
    requires s[4..x1] == t1 && s[y0..y1] == t2 && s[z0..z1] == t3
    ensures Exec(Pattern(), s).Some? <==> IsToken(Max255, t1) && IsToken(Max255, t2) && IsToken(Max255, t3)
    ensures Exec(Pattern(), s).Some? ==> Exec(Pattern(), s).value == [t1, t2, t3]
  {
    RunsMatch(s, x1, y0, y1, z0, z1);
  }

  /** Where the parts of such a text sit. */
  lemma Layout(w: string, t1: string, a: string, t2: string, b: string, t3: string, rest: string)
    requires IsRgbWord(w) && IsNumeral(t1) && IsNumeral(t2) && IsNumeral(t3)
    requires IsSeparator(a) && IsSeparator(b)
    ensures var s := w + "(" + t1 + a + t2 + b + t3 + ")" + rest;
      var x1 := 4 + |t1|; var y0 := x1 + |a|; var y1 := y0 + |t2|; var z0 := y1 + |b|;
      var z1 := z0 + |t3|;
      Opening(s) && ThreeRuns(s, 4, x1, y0, y1, z0, z1) && s[z1] == ')' &&
      SepFits(CommaSpaces, s, x1, y0) && SepFits(CommaSpaces, s, y1, z0) &&
      s[4..x1] == t1 && s[y0..y1] == t2 && s[z0..z1] == t3
  {
    var s := w + "(" + t1 + a + t2 + b + t3 + ")" + rest;
    var x1 := 4 + |t1|;
    var y0 := x1 + |a|;
    var y1 := y0 + |t2|;
    var z0 := y1 + |b|;
    var z1 := z0 + |t3|;
    Pieces(w, t1, a, t2, b, t3, rest);
    assert s[0] == w[0] && s[1] == w[1] && s[2] == w[2];
    assert s[4] == t1[0];
    DigitsAt(s, 4, x1, t1);
    SeparatorAt(s, x1, y0, a);
    DigitsAt(s, y0, y1, t2);
    SeparatorAt(s, y1, z0, b);
    DigitsAt(s, z0, z1, t3);
  }

  /** The text cut back into its parts. */
  lemma Pieces(w: string, t1: string, a: string, t2: string, b: string, t3: string, rest: string)
    requires |w| == 3
    ensures var s := w + "(" + t1 + a + t2 + b + t3 + ")" + rest;
      var x1 := 4 + |t1|; var y0 := x1 + |a|; var y1 := y0 + |t2|; var z0 := y1 + |b|;
      var z1 := z0 + |t3|;
      z1 < |s| && s[..3] == w && s[3] == '(' && s[4..x1] == t1 && s[x1..y0] == a &&
      s[y0..y1] == t2 && s[y1..z0] == b && s[z0..z1] == t3 && s[z1] == ')'
  {
    var p0 := w + "(";
    var p1 := p0 + t1;
    var p2 := p1 + a;
    var p3 := p2 + t2;
    var p4 := p3 + b;
    var p5 := p4 + t3;
    var p6 := p5 + ")";
    var s := p6 + rest;
    assert s[..|p6|] == p6;
    Extend(s, p5, ")");
    Extend(s, p4, t3);
    Extend(s, p3, b);
    Extend(s, p2, t2);
    Extend(s, p1, a);
    Extend(s, p0, t1);
    Extend(s, w, "(");
    assert s[|p5|] == s[|p5|..|p5| + 1][0];
    assert s[3] == s[3..4][0];
  }

  lemma SeparatorAt(s: string, i: nat, j: nat, a: string)
    requires i <= j <= |s| && s[i..j] == a && IsSeparator(a)
    ensures Gap(s, i, j) && SepFits(CommaSpaces, s, i, j)
  {
    forall k | i <= k < j
      ensures InClass(CommaSpaces, s[k]) && !IsDigit(s[k]) && s[k] != ')'
    {
      assert s[k] == a[k - i] && a[k - i] in a;
    }
  }

  // ------------------------------------------------------------------ rejections

  /** The atoms of the pattern, one by one. */
  lemma PatternAtoms()
    ensures Pattern() == [Char('r'), Char('g'), Char('b'), OptSpace, Char('('), OptSpace,
                          Group(Max255), CommaSpaces, Group(Max255), CommaSpaces, Group(Max255),
                          OptSpace, Char(')')]
  {
  }

  /** A way through the pattern behind every text `fromString` accepts. */
  lemma WayOf(s: string) returns (ls: seq<nat>)
    requires FromString(s).Ok?
    ensures Accepts(Pattern(), s, 0, ls)
  {
    ls :| Accepts(Pattern(), s, 0, ls);
  }

  /** A text `fromString` accepts starts with `rgb`, in any case. */
  lemma AcceptedStartsWithRgb(s: string)
    ensures FromString(s).Ok? ==>
      |s| >= 3 && Lower(s[0]) == 'r' && Lower(s[1]) == 'g' && Lower(s[2]) == 'b'
  {
    if FromString(s).Ok? {
      var ls := WayOf(s);
      WayStartsWithRgb(s, ls);
    }
  }

  lemma WayStartsWithRgb(s: string, ls: seq<nat>)
    requires Accepts(Pattern(), s, 0, ls)
    ensures |s| >= 3 && Lower(s[0]) == 'r' && Lower(s[1]) == 'g' && Lower(s[2]) == 'b'
  {
    PatternEnds();
    LeadingChars(Pattern(), s, ls);
  }

  /** The first and the last atoms of the pattern. */
  lemma PatternEnds()
    ensures |Pattern()| == 13 && Pattern()[0] == Char('r') && Pattern()[1] == Char('g')
    ensures Pattern()[2] == Char('b') && Pattern()[12] == Char(')')
  {
    PatternAtoms();
  }

  /** `Rgb.fromString('not a color')` throws. */
  lemma NotAColor()
    ensures FromString("not a color") == Err(NotAnRgb)
  {
    AcceptedStartsWithRgb("not a color");
  }

  /** The pattern has no atom that can take a `%`. */
  lemma NoPercentInPattern()
    ensures forall k :: 0 <= k < |Pattern()| ==> !Takes(Pattern()[k], '%')
  {
    PatternAtoms();
  }

  /** A text whose only `)` is its last character, right after a `%`, is rejected: a
      match has to end on a `)`, and no atom takes the `%` before it. */
  lemma PercentBeforeClose(s: string)
    requires |s| >= 2 && s[|s| - 1] == ')' && s[|s| - 2] == '%'
    requires forall k :: 0 <= k < |s| - 1 ==> s[k] != ')'
    ensures FromString(s) == Err(NotAnRgb)
  {
    PatternEnds();
    NoPercentInPattern();
    assert forall k :: 0 <= k < |s| - 1 ==> Lower(s[k]) != ')';
    forall ls: seq<nat>
      ensures !Accepts(Pattern(), s, 0, ls)
    {
      NoWayPast(Pattern(), s, ls, ')', '%');
    }
  }

  /** `color.toString()` is never read back by `fromString`: the `%` after the blue
      channel stands right before the closing `)`. */
  lemma ToStringRejected(c: Rgb)
    ensures FromString(ToString(c)) == Err(NotAnRgb)
  {
    var r, g, b := IntToString(c.red, 10), IntToString(c.green, 10), IntToString(c.blue, 10);
    var front := "rgb(" + r + "," + g + "%," + b + "%";
    var s := ToString(c);
    assert s == front + ")";
    assert ')' !in front;
    forall k | 0 <= k < |s| - 1
      ensures s[k] != ')'
    {
      assert s[k] == front[k];
    }
    PercentBeforeClose(s);
  }

  // ------------------------------------------------------------------ examples

  /** The documented example: `Rgb.fromString('rgb(100, 105, 87)')`. */
  lemma DocumentedExample(s: string)
    requires s == "rgb(100, 105, 87)"
    ensures FromString(s) == Ok(Rgb(100, 105, 87))
  {
    assert s == "rgb" + "(" + "100" + ", " + "105" + ", " + "87" + ")" + "";
    ExampleTokens();
    FromStringOfParts("rgb", "100", ", ", "105", ", ", "87", "");
  }

  lemma ExampleTokens()
    ensures IsToken(Max255, "100") && IsToken(Max255, "105") && IsToken(Max255, "87")
    ensures TokenValue("100") == 100 && TokenValue("105") == 105 && TokenValue("87") == 87
  {
    ValueOfShort("100", 10);
    ValueOfShort("105", 10);
    ValueOfShort("87", 10);
  }

  /** A three-digit run above 255 fits no alternative of its group. */
  lemma OutOfRangeExample(s: string)
    requires s == "rgb(256,0,0)"
    ensures FromString(s) == Err(NotAnRgb)
  {
    assert s == "rgb" + "(" + "256" + "," + "0" + "," + "0" + ")" + "";
    OutOfRangeToken("256");
    FromStringOfParts("rgb", "256", ",", "0", ",", "0", "");
    assert !FromString(s).Ok?;
  }

  lemma OutOfRangeToken(t: string)
    requires t == "256"
    ensures !IsToken(Max255, t)
  {
    assert t[0] == '2' && t[1] == '5' && t[2] == '6';
  }

  // ------------------------------------------------------------------ empty separators

  /** Three single digits right after `rgb(` and closed by `)`: the separators may be
      empty, so the text matches, one digit per group. */
  lemma AdjacentDigits(s: string)
    requires Opening(s) && |s| >= 8 && IsDigit(s[5]) && IsDigit(s[6]) && s[7] == ')'
    ensures Exec(Pattern(), s).Some? && Exec(Pattern(), s).value == [s[4..5], s[5..6], s[6..7]]
  {
    var le: seq<nat> := [0, 1];
    AdjacentSetup(s, le);
    AdjacentExec(Head, HeadSteps, Max255, CommaSpaces, Max255, CommaSpaces, Max255, Tail, s, 4, le);
    assert Head + Body(Max255, CommaSpaces, Max255, CommaSpaces, Max255, Tail) == Pattern();
  }

  /** What the matcher needs to know of such a text: the head's only way through,
      three digits, and a `)` that no separator takes. */
  lemma AdjacentSetup(s: string, le: seq<nat>)
    requires Opening(s) && |s| >= 8 && IsDigit(s[5]) && IsDigit(s[6]) && s[7] == ')'
    requires le == [0, 1]
    ensures |HeadSteps| == |Head| && Groups(Head) == [] && Total(HeadSteps) == 4
    ensures Accepts(Head, s, 0, HeadSteps) && forall lh: seq<nat> :: Accepts(Head, s, 0, lh) ==> lh == HeadSteps
    ensures IsStar(CommaSpaces) && EndShape(Tail)
    ensures AllDigits(s, 4, 7) && !IsDigit(s[7]) && !InClass(CommaSpaces, s[7])
    ensures Accepts(Tail, s, 7, le)
  {
    assert IsDigit(s[4]);
    assert AllDigits(s, 4, 7) && !IsDigit(s[7]) && !InClass(CommaSpaces, s[7]);
    TailAt(s, 7);
    PatternShape();
    HeadOnlyWay(s);
  }

  /** ... and `fromString` reads the three digits as the channels. */
  lemma AdjacentRead(s: string)
    requires Opening(s) && |s| >= 8 && IsDigit(s[5]) && IsDigit(s[6]) && s[7] == ')'
    ensures FromString(s) == Ok(Rgb(DigitValue(s[4]), DigitValue(s[5]), DigitValue(s[6])))
  {
    AdjacentDigits(s);
    var m := [s[4..5], s[5..6], s[6..7]];
    ReadCaptures(s, m);
    ValueOfShort(m[0], 10);
    ValueOfShort(m[1], 10);
    ValueOfShort(m[2], 10);
  }

  /** `Rgb.fromString('rgb(123)')` reads (1, 2, 3). */
  lemma EmptySeparatorsExample(s: string)
    requires s == "rgb(123)"
    ensures FromString(s) == Ok(Rgb(1, 2, 3))
  {
    assert Opening(s) && IsDigit(s[5]) && IsDigit(s[6]);
    AdjacentRead(s);
  }
}

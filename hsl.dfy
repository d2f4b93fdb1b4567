/** The `Hsl` value object: hue, saturation and lightness, built from a partial record
    or from a CSS `hsl(...)` string, printed back as CSS text, and copied with one
    field replaced. */
module HslColor {
  import opened Wrappers
  import opened Js
  import opened Regex

  datatype Hsl = Hsl(hue: int, saturation: int, lightness: int)

  /** `new Hsl({hue, saturation, lightness})`; NaN also stands for a missing field. */
  function NewHsl(hue: Num, saturation: Num, lightness: Num): (c: Hsl)
    ensures Collapsed(c.hue, hue) && Collapsed(c.saturation, saturation)
    ensures Collapsed(c.lightness, lightness)
  {
    Hsl(OrZero(hue), OrZero(saturation), OrZero(lightness))
  }

  /** Building from fields that are already numbers gives them back. */
  lemma NewHslOfInts(h: int, s: int, l: int)
    ensures NewHsl(Int(h), Int(s), Int(l)) == Hsl(h, s, l)
  {
  }

  // ------------------------------------------------------------------ setters

  /** `color.setLightness(lightness)`: a new colour with the lightness replaced (falsy
      becomes 0). */
  function SetLightness(c: Hsl, lightness: Num): (r: Hsl)
    ensures Collapsed(r.lightness, lightness) && r.hue == c.hue && r.saturation == c.saturation
  {
    NewHsl(Int(c.hue), Int(c.saturation), lightness)
  }

  /** `color.setSaturation(saturation)` */
  function SetSaturation(c: Hsl, saturation: Num): (r: Hsl)
    ensures Collapsed(r.saturation, saturation) && r.hue == c.hue && r.lightness == c.lightness
  {
    NewHsl(Int(c.hue), saturation, Int(c.lightness))
  }

  /** `color.setHue(hue)` */
  function SetHue(c: Hsl, hue: Num): (r: Hsl)
    ensures Collapsed(r.hue, hue) && r.saturation == c.saturation && r.lightness == c.lightness
  {
    NewHsl(hue, Int(c.saturation), Int(c.lightness))
  }

  /** A second set of the same field overrides the first, setting a field to its
      current value changes nothing, and setters of different fields commute. */
  lemma SetterLaws(c: Hsl, x: Num, y: Num)
    ensures SetHue(SetHue(c, x), y) == SetHue(c, y) && SetHue(c, Int(c.hue)) == c
    ensures SetSaturation(SetSaturation(c, x), y) == SetSaturation(c, y) && SetSaturation(c, Int(c.saturation)) == c
    ensures SetLightness(SetLightness(c, x), y) == SetLightness(c, y) && SetLightness(c, Int(c.lightness)) == c
    ensures SetHue(SetSaturation(c, x), y) == SetSaturation(SetHue(c, y), x)
    ensures SetHue(SetLightness(c, x), y) == SetLightness(SetHue(c, y), x)
    ensures SetSaturation(SetLightness(c, x), y) == SetLightness(SetSaturation(c, y), x)
  {
  }

  // ----------------------------------------------------------------- CSS text

  /** `^hsl\s?\(`: unlike the `rgb` pattern, no space is allowed after the `(`. */
  const Head: seq<Atom> := [Char('h'), Char('s'), Char('l'), OptSpace, Char('(')]

  /** `\s?%?\s?\)` */
  const Tail: seq<Atom> := [OptSpace, OptChar('%'), OptSpace, Char(')')]

  /** The lengths the head takes before a digit: `h`, `s`, `l`, no space, `(`. */
  const HeadSteps: seq<nat> := [1, 1, 1, 0, 1]

  /** The pattern `fromString` runs: a hue group, two percentage groups and
      `(?:[^0-9]*)?` between them; matched case-insensitively and with no end anchor. */
  function Pattern(): seq<Atom> {
    Head + Body(Max360, NonDigits, Max100, NonDigits, Max100, Tail)
  }

  const NotAnHsl: string := "Não é um HSL válido"

  predicate InRange(c: Hsl) {
    0 <= c.hue <= 360 && 0 <= c.saturation <= 100 && 0 <= c.lightness <= 100
  }

  lemma PatternShape()
    ensures EndShape(Tail) && Groups(Head) == []
    ensures Groups(Pattern()) == [Max360, Max100, Max100]
  {
    GroupsNone(Head);
    BodyGroups(Max360, NonDigits, Max100, NonDigits, Max100, Tail);
    GroupsConcat(Head, Body(Max360, NonDigits, Max100, NonDigits, Max100, Tail));
  }

  /** `Hsl.fromString(color)`: the error stands for the exception thrown on no match.
      The hue it returns lies in 0..360, saturation and lightness in 0..100. */
  function FromString(color: string): (r: Result<Hsl, string>)
    ensures r.Ok? ==> exists ls: seq<nat> :: Accepts(Pattern(), color, 0, ls)
    ensures forall ls: seq<nat> :: Accepts(Pattern(), color, 0, ls) ==> r.Ok?
    ensures r.Err? ==> r.error == NotAnHsl
    ensures r.Ok? ==> InRange(r.value)
  {
    match Exec(Pattern(), color)
    case None => Err(NotAnHsl)
    case Some(m) =>
      MatchTokens(color);
      CapturesInRange(m);
      Ok(NewHsl(Int(TokenValue(m[0])), Int(TokenValue(m[1])), Int(TokenValue(m[2]))))
  }

  /** A match captures three tokens of the pattern's groups. */
  lemma MatchTokens(color: string)
    requires Exec(Pattern(), color).Some?
    ensures var m := Exec(Pattern(), color).value;
      |m| == 3 && IsToken(Max360, m[0]) && IsToken(Max100, m[1]) && IsToken(Max100, m[2])
  {
    var m := Exec(Pattern(), color).value;
    var g := Groups(Pattern());
    assert |m| == |g| && forall k :: 0 <= k < |m| ==> IsToken(g[k], m[k]);
    PatternShape();
    assert IsToken(g[0], m[0]) && IsToken(g[1], m[1]) && IsToken(g[2], m[2]);
  }

  /** The three captures read as numbers within the ranges of their groups. */
  lemma CapturesInRange(m: seq<string>)
    requires |m| == 3 && IsToken(Max360, m[0]) && IsToken(Max100, m[1]) && IsToken(Max100, m[2])
    ensures IsDecimal(m[0]) && IsDecimal(m[1]) && IsDecimal(m[2])
    ensures InRange(NewHsl(Int(TokenValue(m[0])), Int(TokenValue(m[1])), Int(TokenValue(m[2]))))
  {
    TokenInRange(Max360, m[0]);
    TokenInRange(Max100, m[1]);
    TokenInRange(Max100, m[2]);
    NewHslOfInts(TokenValue(m[0]), TokenValue(m[1]), TokenValue(m[2]));
  }

  /** `color.toString()` */
  function ToString(c: Hsl): string {
    "hsl(" + IntToString(c.hue, 10) + "," + IntToString(c.saturation, 10) + "%," +
    IntToString(c.lightness, 10) + "%)"
  }

  /** `hsl(`, in any case, then a digit. */
  predicate Opening(s: string) {
    |s| >= 5 && Lower(s[0]) == 'h' && Lower(s[1]) == 's' && Lower(s[2]) == 'l' &&
    s[3] == '(' && IsDigit(s[4])
  }

  /** Before a `(`, the head has one way through: `hsl(` and no space. */
  lemma HeadOnlyWay(s: string)
    requires Opening(s)
    ensures Accepts(Head, s, 0, HeadSteps) && Total(HeadSteps) == 4
    ensures forall lh: seq<nat> :: Accepts(Head, s, 0, lh) ==> lh == HeadSteps
  {
    forall lh: seq<nat> | Accepts(Head, s, 0, lh)
      ensures lh == HeadSteps
    {
      HeadWay(s, lh);
    }
    HeadAccepts(s);
  }

  lemma HeadWay(s: string, lh: seq<nat>)
    requires |s| >= 4 && s[3] == '(' && Accepts(Head, s, 0, lh)
    ensures lh == HeadSteps
  {
    assert !IsSpace(s[3]);
    var h1, h2, h3, h4 := Head[1..], Head[2..], Head[3..], Head[4..];
    assert h1[1..] == h2 && h2[1..] == h3 && h3[1..] == h4;
    assert lh[0] == 1 && Accepts(h1, s, 1, lh[1..]);
    assert lh[1] == 1 && Accepts(h2, s, 2, lh[2..]);
    assert lh[2] == 1 && Accepts(h3, s, 3, lh[3..]);
    assert lh[3] == 0 && Accepts(h4, s, 3, lh[4..]);
    assert lh[4] == 1;
  }

  lemma HeadAccepts(s: string)
    requires Opening(s)
    ensures Accepts(Head, s, 0, HeadSteps) && Total(HeadSteps) == 4
  {
    assert !IsSpace(s[3]);
    var h1, h2, h3, h4 := Head[1..], Head[2..], Head[3..], Head[4..];
    assert h1[1..] == h2 && h2[1..] == h3 && h3[1..] == h4 && h4[1..] == [];
    assert Accepts(h4, s, 3, [1]);
    assert Accepts(h3, s, 3, [0, 1]);
    assert Accepts(h2, s, 2, [1, 0, 1]);
    assert Accepts(h1, s, 1, [1, 1, 0, 1]);
  }

  /** Three digit runs after `hsl(`, parted by non-digits and followed by a tail the
      pattern accepts: the text is accepted exactly when the first run is a hue token
      (0..360) and the others percentage tokens (0..100), and the fields are then the
      runs' values. */
  lemma FromStringOfRuns(s: string, x1: nat, y0: nat, y1: nat, z0: nat, z1: nat, le: seq<nat>)
    requires Opening(s) && ThreeRuns(s, 4, x1, y0, y1, z0, z1) && Accepts(Tail, s, z1, le)
    ensures IsDecimal(s[4..x1]) && IsDecimal(s[y0..y1]) && IsDecimal(s[z0..z1])
    ensures FromString(s).Ok? <==>
      IsToken(Max360, s[4..x1]) && IsToken(Max100, s[y0..y1]) && IsToken(Max100, s[z0..z1])
    ensures FromString(s).Ok? ==>
      FromString(s).value == Hsl(TokenValue(s[4..x1]), TokenValue(s[y0..y1]), TokenValue(s[z0..z1]))
  {
    RunsMatch(s, x1, y0, y1, z0, z1, le);
    DigitRuns(s, x1, y0, y1, z0, z1);
    ReadMatch(s, s[4..x1], s[y0..y1], s[z0..z1]);
  }

  /** The three runs are decimal. */
  lemma DigitRuns(s: string, x1: nat, y0: nat, y1: nat, z0: nat, z1: nat)
    requires ThreeRuns(s, 4, x1, y0, y1, z0, z1)
    ensures IsDecimal(s[4..x1]) && IsDecimal(s[y0..y1]) && IsDecimal(s[z0..z1])
  {
    assert forall k :: 0 <= k < x1 - 4 ==> s[4..x1][k] == s[4 + k];
    assert forall k :: 0 <= k < y1 - y0 ==> s[y0..y1][k] == s[y0 + k];
    assert forall k :: 0 <= k < z1 - z0 ==> s[z0..z1][k] == s[z0 + k];
  }

  /** The match over three such runs, and what it captures. */
  lemma RunsMatch(s: string, x1: nat, y0: nat, y1: nat, z0: nat, z1: nat, le: seq<nat>)
    requires Opening(s) && ThreeRuns(s, 4, x1, y0, y1, z0, z1) && Accepts(Tail, s, z1, le)
    ensures Exec(Pattern(), s).Some? <==>
      IsToken(Max360, s[4..x1]) && IsToken(Max100, s[y0..y1]) && IsToken(Max100, s[z0..z1])
    ensures Exec(Pattern(), s).Some? ==> Exec(Pattern(), s).value == [s[4..x1], s[y0..y1], s[z0..z1]]
  {
    HeadOnlyWay(s);
    PatternShape();
    GapsFit(s, x1, y0, y1, z0, z1);
    HeadBodyExec(Head, HeadSteps, Max360, NonDigits, Max100, NonDigits, Max100, Tail,
                 s, x1, y0, y1, z0, z1);
  }

  /** The gaps between the runs are made of non-digits. */
  lemma GapsFit(s: string, x1: nat, y0: nat, y1: nat, z0: nat, z1: nat)
    requires ThreeRuns(s, 4, x1, y0, y1, z0, z1)
    ensures SepFits(NonDigits, s, x1, y0) && SepFits(NonDigits, s, y1, z0)
  {
  }

  /** `fromString` succeeds exactly when the pattern matches, and reads its captures. */
  lemma ReadMatch(s: string, t1: string, t2: string, t3: string)
    requires IsDecimal(t1) && IsDecimal(t2) && IsDecimal(t3)
    requires Exec(Pattern(), s) == None || Exec(Pattern(), s) == Some([t1, t2, t3])
    ensures Exec(Pattern(), s) == None ==> FromString(s) == Err(NotAnHsl)
    ensures Exec(Pattern(), s) == Some([t1, t2, t3]) ==>
      FromString(s) == Ok(Hsl(TokenValue(t1), TokenValue(t2), TokenValue(t3)))
  {
    if Exec(Pattern(), s) != None {
      ReadCaptures(s, [t1, t2, t3]);
    }
  }

  /** What `fromString` makes of the captures of a match. */
  lemma ReadCaptures(s: string, m: seq<string>)
    requires Exec(Pattern(), s) == Some(m)
    ensures |m| == 3 && IsDecimal(m[0]) && IsDecimal(m[1]) && IsDecimal(m[2])
    ensures FromString(s) == Ok(Hsl(TokenValue(m[0]), TokenValue(m[1]), TokenValue(m[2])))
  {
    MatchTokens(s);
    TokenInRange(Max360, m[0]);
    TokenInRange(Max100, m[1]);
    TokenInRange(Max100, m[2]);
    var v0, v1, v2 := TokenValue(m[0]), TokenValue(m[1]), TokenValue(m[2]);
    assert FromString(s) == Ok(NewHsl(Int(v0), Int(v1), Int(v2)));
    NewHslOfInts(v0, v1, v2);
  }

  // ------------------------------------------------------------ texts in parts

  predicate IsNumeral(t: string) {
    t != [] && IsDecimal(t)
  }

  /** Text between two numbers: non-empty, no digit and no `)`. */
  predicate IsGapText(a: string) {
    a != [] && forall c <- a :: !IsDigit(c) && c != ')'
  }

  /** `hsl` in any case. */
  predicate IsHslWord(w: string) {
    |w| == 3 && Lower(w[0]) == 'h' && Lower(w[1]) == 's' && Lower(w[2]) == 'l'
  }

  /** What `\s?%?\s?` takes before the `)`: an optional space, an optional `%` and an
      optional space. */
  predicate IsCloser(sp1: string, pct: string, sp2: string) {
    |sp1| <= 1 && |sp2| <= 1 && (forall c <- sp1 + sp2 :: IsSpace(c)) && (pct == "" || pct == "%")
  }

  /** `hsl(` a sep b sep c `)` (with an optional `%` and spaces before the `)`) and
      anything after: accepted exactly when a is a hue token and b and c are
      percentage tokens, and then read as (a, b, c). */
  lemma FromStringOfParts(w: string, t1: string, a: string, t2: string, b: string, t3: string,
                          sp1: string, pct: string, sp2: string, rest: string)
    requires IsHslWord(w) && IsNumeral(t1) && IsNumeral(t2) && IsNumeral(t3)
    requires IsGapText(a) && IsGapText(b) && IsCloser(sp1, pct, sp2)
    ensures var s := w + "(" + t1 + a + t2 + b + t3 + (sp1 + pct + sp2 + ")") + rest;
      (FromString(s).Ok? <==> IsToken(Max360, t1) && IsToken(Max100, t2) && IsToken(Max100, t3)) &&
      (FromString(s).Ok? ==> FromString(s).value == Hsl(TokenValue(t1), TokenValue(t2), TokenValue(t3)))
  {
    var s := w + "(" + t1 + a + t2 + b + t3 + (sp1 + pct + sp2 + ")") + rest;
    PartsMatch(w, t1, a, t2, b, t3, sp1, pct, sp2, rest);
    ReadMatch(s, t1, t2, t3);
  }

  lemma PartsMatch(w: string, t1: string, a: string, t2: string, b: string, t3: string,
                   sp1: string, pct: string, sp2: string, rest: string)
    requires IsHslWord(w) && IsNumeral(t1) && IsNumeral(t2) && IsNumeral(t3)
    requires IsGapText(a) && IsGapText(b) && IsCloser(sp1, pct, sp2)
    ensures var s := w + "(" + t1 + a + t2 + b + t3 + (sp1 + pct + sp2 + ")") + rest;
      (Exec(Pattern(), s).Some? <==> IsToken(Max360, t1) && IsToken(Max100, t2) && IsToken(Max100, t3)) &&
      (Exec(Pattern(), s).Some? ==> Exec(Pattern(), s).value == [t1, t2, t3])
  {
    var s := w + "(" + t1 + a + t2 + b + t3 + (sp1 + pct + sp2 + ")") + rest;
    var x1 := 4 + |t1|;
    var y0 := x1 + |a|;
    var y1 := y0 + |t2|;
    var z0 := y1 + |b|;
    var z1 := z0 + |t3|;
    PartsLayout(w, t1, a, t2, b, t3, sp1, pct, sp2, rest);
    var le: seq<nat> :| Accepts(Tail, s, z1, le);
    RunsMatchAs(s, x1, y0, y1, z0, z1, le, t1, t2, t3);
  }

  /** Where the parts of such a text sit, and the tail taking the closer. */
  lemma PartsLayout(w: string, t1: string, a: string, t2: string, b: string, t3: string,
                    sp1: string, pct: string, sp2: string, rest: string)
    requires IsHslWord(w) && IsNumeral(t1) && IsNumeral(t2) && IsNumeral(t3)
    requires IsGapText(a) && IsGapText(b) && IsCloser(sp1, pct, sp2)
    ensures var s := w + "(" + t1 + a + t2 + b + t3 + (sp1 + pct + sp2 + ")") + rest;
      var x1 := 4 + |t1|; var y0 := x1 + |a|; var y1 := y0 + |t2|; var z0 := y1 + |b|;
      var z1 := z0 + |t3|;
      Opening(s) && ThreeRuns(s, 4, x1, y0, y1, z0, z1) &&
      (exists le: seq<nat> :: Accepts(Tail, s, z1, le)) &&
      s[4..x1] == t1 && s[y0..y1] == t2 && s[z0..z1] == t3
  {
    var e := sp1 + pct + sp2 + ")";
    var s := w + "(" + t1 + a + t2 + b + t3 + e + rest;
    var z1 := 4 + |t1| + |a| + |t2| + |b| + |t3|;
    CloserChars(sp1, pct, sp2);
    Layout(w, t1, a, t2, b, t3, e, rest);
    CloserAccepts(s, z1, sp1, pct, sp2);
    var le: seq<nat> := [|sp1|, |pct|, |sp2|, 1];
    assert Accepts(Tail, s, z1, le);
  }

  lemma RunsMatchAs(s: string, x1: nat, y0: nat, y1: nat, z0: nat, z1: nat, le: seq<nat>,
                    t1: string, t2: string, t3: string)
    requires Opening(s) && ThreeRuns(s, 4, x1, y0, y1, z0, z1) && Accepts(Tail, s, z1, le)
    requires s[4..x1] == t1 && s[y0..y1] == t2 && s[z0..z1] == t3
    ensures Exec(Pattern(), s).Some? <==> IsToken(Max360, t1) && IsToken(Max100, t2) && IsToken(Max100, t3)
    ensures Exec(Pattern(), s).Some? ==> Exec(Pattern(), s).value == [t1, t2, t3]
  {
    RunsMatch(s, x1, y0, y1, z0, z1, le);
  }

  /** The characters of a closer text followed by `)`. */
  lemma CloserChars(sp1: string, pct: string, sp2: string)
    requires IsCloser(sp1, pct, sp2)
    ensures var e := sp1 + pct + sp2 + ")";
      var j1 := |sp1|; var j2 := j1 + |pct|; var j3 := j2 + |sp2|;
      j3 < |e| && !IsDigit(e[0]) &&
      (sp1 != [] ==> IsSpace(e[0])) && (pct != [] ==> e[j1] == '%') &&
      (sp2 != [] ==> IsSpace(e[j2])) && e[j3] == ')'
  {
    if sp1 != [] {
      assert sp1[0] in sp1 + sp2;
    }
    if sp2 != [] {
      assert sp2[0] in sp1 + sp2;
    }
  }

  /** The tail takes the closer and the `)`. */
  lemma CloserAccepts(s: string, i: nat, sp1: string, pct: string, sp2: string)
    requires IsCloser(sp1, pct, sp2)
    requires var e := sp1 + pct + sp2 + ")"; i + |e| <= |s| && s[i..i + |e|] == e
    ensures Accepts(Tail, s, i, [|sp1|, |pct|, |sp2|, 1])
  {
    CloserFits(s, i, sp1, pct, sp2);
    TailAccepts(s, i, |sp1|, |pct|, |sp2|);
  }

  lemma TailAccepts(s: string, i: nat, l1: nat, l2: nat, l3: nat)
    requires i + l1 + l2 + l3 < |s| && Fits(OptSpace, s, i, l1) && Fits(OptChar('%'), s, i + l1, l2)
    requires Fits(OptSpace, s, i + l1 + l2, l3) && Fits(Char(')'), s, i + l1 + l2 + l3, 1)
    ensures Accepts(Tail, s, i, [l1, l2, l3, 1])
  {
    var j1 := i + l1;
    var j2 := j1 + l2;
    var j3 := j2 + l3;
    var ls := [l1, l2, l3, 1];
    assert Fits(Tail[3], s, j3, ls[3]) && Accepts(Tail[4..], s, j3 + 1, ls[4..]);
    AcceptsCons(Tail[3..], s, j3, j3 + 1, ls[3..]);
    assert Fits(Tail[2], s, j2, ls[2]);
    AcceptsCons(Tail[2..], s, j2, j3, ls[2..]);
    assert Fits(Tail[1], s, j1, ls[1]);
    AcceptsCons(Tail[1..], s, j1, j2, ls[1..]);
    assert Fits(Tail[0], s, i, ls[0]);
    AcceptsCons(Tail, s, i, j1, ls);
  }

  lemma CloserFits(s: string, i: nat, sp1: string, pct: string, sp2: string)
    requires IsCloser(sp1, pct, sp2)
    requires var e := sp1 + pct + sp2 + ")"; i + |e| <= |s| && s[i..i + |e|] == e
    ensures var j1 := i + |sp1|; var j2 := j1 + |pct|; var j3 := j2 + |sp2|;
      j3 < |s| && Fits(OptSpace, s, i, |sp1|) && Fits(OptChar('%'), s, j1, |pct|) &&
      Fits(OptSpace, s, j2, |sp2|) && Fits(Char(')'), s, j3, 1)
  {
    var e := sp1 + pct + sp2 + ")";
    CloserChars(sp1, pct, sp2);
    OneAt(s, i, e, 0);
    OneAt(s, i, e, |sp1|);
    OneAt(s, i, e, |sp1| + |pct|);
    OneAt(s, i, e, |sp1| + |pct| + |sp2|);
  }

  lemma OneAt(s: string, i: nat, e: string, k: nat)
    requires i + |e| <= |s| && s[i..i + |e|] == e && k < |e|
    ensures s[i + k] == e[k]
  {
    assert s[i..i + |e|][k] == s[i + k];
  }

  /** Where the parts of such a text sit; e is what follows the last number. */
  lemma Layout(w: string, t1: string, a: string, t2: string, b: string, t3: string,
               e: string, rest: string)
    requires IsHslWord(w) && IsNumeral(t1) && IsNumeral(t2) && IsNumeral(t3)
    requires IsGapText(a) && IsGapText(b) && e != [] && !IsDigit(e[0])
    ensures var s := w + "(" + t1 + a + t2 + b + t3 + e + rest;
      var x1 := 4 + |t1|; var y0 := x1 + |a|; var y1 := y0 + |t2|; var z0 := y1 + |b|;
      var z1 := z0 + |t3|;
      Opening(s) && ThreeRuns(s, 4, x1, y0, y1, z0, z1) &&
      z1 + |e| <= |s| && s[z1..z1 + |e|] == e &&
      s[4..x1] == t1 && s[y0..y1] == t2 && s[z0..z1] == t3
  {
    var s := w + "(" + t1 + a + t2 + b + t3 + e + rest;
    var x1 := 4 + |t1|;
    var y0 := x1 + |a|;
    var y1 := y0 + |t2|;
    var z0 := y1 + |b|;
    var z1 := z0 + |t3|;
    Pieces(w, t1, a, t2, b, t3, e, rest);
    assert s[0] == w[0] && s[1] == w[1] && s[2] == w[2];
    assert s[4] == t1[0];
    RunsOfParts(s, x1, y0, y1, z0, z1, t1, a, t2, b, t3, e);
  }

  /** Three numerals apart by two gaps, then a non-digit, make three runs. */
  lemma RunsOfParts(s: string, x1: nat, y0: nat, y1: nat, z0: nat, z1: nat,
                    t1: string, a: string, t2: string, b: string, t3: string, e: string)
    requires 4 <= x1 <= y0 <= y1 <= z0 <= z1 && z1 + |e| <= |s|
    requires s[4..x1] == t1 && s[x1..y0] == a && s[y0..y1] == t2
    requires s[y1..z0] == b && s[z0..z1] == t3 && s[z1..z1 + |e|] == e
    requires IsNumeral(t1) && IsNumeral(t2) && IsNumeral(t3)
    requires IsGapText(a) && IsGapText(b) && e != [] && !IsDigit(e[0])
    ensures ThreeRuns(s, 4, x1, y0, y1, z0, z1)
  {
    OneAt(s, z1, e, 0);
    DigitsAt(s, 4, x1, t1);
    GapAt(s, x1, y0, a);
    DigitsAt(s, y0, y1, t2);
    GapAt(s, y1, z0, b);
    DigitsAt(s, z0, z1, t3);
  }

  /** The text cut back into its parts. */
  lemma Pieces(w: string, t1: string, a: string, t2: string, b: string, t3: string,
               e: string, rest: string)
    requires |w| == 3
    ensures var s := w + "(" + t1 + a + t2 + b + t3 + e + rest;
      var x1 := 4 + |t1|; var y0 := x1 + |a|; var y1 := y0 + |t2|; var z0 := y1 + |b|;
      var z1 := z0 + |t3|;
      z1 + |e| <= |s| && s[..3] == w && s[3] == '(' && s[4..x1] == t1 && s[x1..y0] == a &&
      s[y0..y1] == t2 && s[y1..z0] == b && s[z0..z1] == t3 && s[z1..z1 + |e|] == e
  {
    var p0 := w + "(";
    var p1 := p0 + t1;
    var p2 := p1 + a;
    var p3 := p2 + t2;
    var p4 := p3 + b;
    var p5 := p4 + t3;
    var p6 := p5 + e;
    var s := p6 + rest;
    assert s[..|p6|] == p6;
    Extend(s, p5, e);
    Extend(s, p4, t3);
    Extend(s, p3, b);
    Extend(s, p2, t2);
    Extend(s, p1, a);
    Extend(s, p0, t1);
    Extend(s, w, "(");
    assert s[3] == s[3..4][0];
  }

  lemma GapAt(s: string, i: nat, j: nat, a: string)
    requires i <= j <= |s| && s[i..j] == a && IsGapText(a)
    ensures Gap(s, i, j)
  {
    forall k | i <= k < j
      ensures !IsDigit(s[k]) && s[k] != ')'
    {
      assert s[k] == a[k - i] && a[k - i] in a;
    }
  }

  // ---------------------------------------------------------------- round trip

  /** `Hsl.fromString(color.toString())` gives the colour back when its hue lies in
      0..360 and its saturation and lightness in 0..100. */
  lemma ToStringRoundTrip(c: Hsl)
    requires InRange(c)
    ensures FromString(ToString(c)) == Ok(c)
  {
    var h, s, l := IntToString(c.hue, 10), IntToString(c.saturation, 10), IntToString(c.lightness, 10);
    DecimalToken(Max360, c.hue);
    DecimalToken(Max100, c.saturation);
    DecimalToken(Max100, c.lightness);
    assert ToString(c) == "hsl" + "(" + h + "," + s + "%," + l + ("" + "%" + "" + ")") + "";
    FromStringOfParts("hsl", h, ",", s, "%,", l, "", "%", "", "");
  }

  // ------------------------------------------------------------------ examples

  /** The documented example: `Hsl.fromString('hsl(110, 80%, 80%)')`. */
  lemma DocumentedExample(s: string)
    requires s == "hsl(110, 80%, 80%)"
    ensures FromString(s) == Ok(Hsl(110, 80, 80))
  {
    assert s == "hsl" + "(" + "110" + ", " + "80" + "%, " + "80" + ("" + "%" + "" + ")") + "";
    ExampleTokens();
    FromStringOfParts("hsl", "110", ", ", "80", "%, ", "80", "", "%", "", "");
  }

  lemma ExampleTokens()
    ensures IsToken(Max360, "110") && IsToken(Max100, "80") && IsToken(Max360, "400") == false
    ensures TokenValue("110") == 110 && TokenValue("80") == 80
  {
    ValueOfShort("110", 10);
    ValueOfShort("80", 10);
  }

  /** A hue of 400 fits no alternative of the hue group. */
  lemma HueOutOfRangeExample(s: string)
    requires s == "hsl(400, 80%, 80%)"
    ensures FromString(s) == Err(NotAnHsl)
  {
    assert s == "hsl" + "(" + "400" + ", " + "80" + "%, " + "80" + ("" + "%" + "" + ")") + "";
    ExampleTokens();
    FromStringOfParts("hsl", "400", ", ", "80", "%, ", "80", "", "%", "", "");
  }

  /** A text with `hsl(` and a space right after the `(` is rejected: the hue group has
      to start there. */
  lemma SpaceAfterParenthesis(s: string)
    requires |s| >= 5 && s[3] == '(' && IsSpace(s[4])
    ensures FromString(s) == Err(NotAnHsl)
  {
    forall ls: seq<nat>
      ensures !Accepts(Pattern(), s, 0, ls)
    {
      NoWayAfterParenthesis(s, ls);
    }
  }

  lemma NoWayAfterParenthesis(s: string, ls: seq<nat>)
    requires |s| >= 5 && s[3] == '(' && !IsDigit(s[4])
    ensures !Accepts(Pattern(), s, 0, ls)
  {
    var body := Body(Max360, NonDigits, Max100, NonDigits, Max100, Tail);
    var hl := HeadSteps;
    if Accepts(Head + body, s, 0, ls) {
      assert |ls| == |Head| + |body|;
      AcceptsConcat(Head, body, s, 0, ls);
      HeadWay(s, ls[..|Head|]);
      BodyOfMatch(Head, hl, body, s, ls);
      assert Total(hl) == 4;
      var p1, p2, p3, p4, p5 :=
        BodySteps(Max360, NonDigits, Max100, NonDigits, Max100, Tail, s, 4, ls[|Head|..]);
      GroupSpan(Max360, s, 4, ls[|Head|..][0]);
      assert false;
    }
  }

  /** `Hsl.fromString('hsl( 110, 80%, 80%)')` throws. */
  lemma SpaceAfterParenthesisExample(s: string)
    requires s == "hsl( 110, 80%, 80%)"
    ensures FromString(s) == Err(NotAnHsl)
  {
    assert s[3] == '(' && IsSpace(s[4]);
    SpaceAfterParenthesis(s);
  }
}

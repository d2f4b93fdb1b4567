# Colour library core, modelled in Dafny

This project models the integer and text core of a small TypeScript colour library:

- the `Rgb` value object (`src/lib/rgb.ts`): its constructor, the hex codec
  `fromHex`/`toHex`, the CSS parser `fromString` (a single regular expression) and
  printer `toString`, and the setters `setRed`/`setGreen`/`setBlue`;
- the `Hsl` value object (`src/lib/hsl.ts`): its constructor, `fromString`, `toString`
  and the setters `setHue`/`setSaturation`/`setLightness`;
- the free functions over plain records in `src/lib/colors-gradient/use-hsl.ts`:
  `hexToRgb`, `rgbToHex`, `rgbToString`, `hslToString` and `setLightness`;
- the palette generator `useColor` and its local `hexToRgb`
  (`src/lib/colors-gradient/use-color.ts`).

The modules follow that structure:

| file | module | contents |
|---|---|---|
| `wrappers.dfy` | `Wrappers` | `Option` and `Result` |
| `js.dfy` | `Js` | the JavaScript primitives the code leans on: numbers as NaN or integer, `x \|\| 0`, `toString(radix)`, `padStart`, `substr`, `parseInt(_, 16)` with its full grammar (leading white space, sign, `0x`, longest hex prefix), `+digits`, `\s` |
| `hex.dfy` | `Hex` | one hex channel: `toString(16).padStart(2, '0')` and `parseInt(hex.substr(1).substr(2k, 2), 16)` |
| `regex.dfy` | `Regex` | a backtracking matcher for the two colour patterns: alternatives tried in pattern order, greedy counts longest first, `exec` returning the captures of the first match; proved sound and complete against a declarative "way through the pattern" predicate, plus the uniqueness lemma for texts with three runs of digits |
| `rgb.dfy` | `RgbColor` | the `Rgb` class as a datatype with functions |
| `hsl.dfy` | `HslColor` | the `Hsl` class as a datatype with functions |
| `use_hsl.dfy` | `UseHsl` | the record functions, whose records keep NaN |
| `use_color.dfy` | `UseColor` | `useColor` as a method with two loops, proved equal to a palette function whose properties are proved as lemmas |

JavaScript numbers appear as `Num = NaN | Int(value)`. A field that a `Partial<...>`
argument leaves out is `undefined`, which `|| 0` treats like NaN, so `NaN` stands for both.
The classes are immutable value objects: every setter copies the object, changes one field
and passes the copy through the constructor. Each one is therefore a function that returns
a new datatype value, and the receiver cannot change.

## Model

| member | source | states |
|---|---|---|
| RgbColor.NewRgb | src/lib/rgb.ts:8-12 | each stored channel is the given one when it is a non-zero number, and 0 when it is missing, NaN or 0 |
| RgbColor.NewRgbOfInts | src/lib/rgb.ts:8-12 | building from integer channels keeps them as they are |
| RgbColor.FromHex | src/lib/rgb.ts:19-30 | defined by its body (the three `parseInt` chunks passed through the constructor); see the rows for FromHexWindow, FromHexOfHex and HexRoundTrip |
| RgbColor.ToHex | src/lib/rgb.ts:111-115 | defined by its body; see the rows for ToHexWithoutHash, ToHexShape and HexRoundTrip |
| RgbColor.ToString | src/lib/rgb.ts:121-123 | defined by its body; see the row for ToStringRejected |
| Js.ParseInt16 | src/lib/rgb.ts:21-23 | defined by its body (white space, sign, `0x`, longest hex prefix, NaN when that is empty); see the rows for TrimStart, HexPrefix, ParseHexDigits, ReadBackByte and UseHsl.NotHexIsNaN |
| Regex.Exec | src/lib/rgb.ts:44-45 | the result is a match exactly when some way through the pattern exists; a match holds one capture per group, each a token that group admits, and is the captures of a way through the pattern |
| RgbColor.FromHexWindow | src/lib/rgb.ts:19-23 | `fromHex` gives equal colours for two strings that agree on indices 1 to 6: it never looks at the first character or past index 6 |
| Hex.ReadChannelWindow | src/lib/rgb.ts:20-23 | channel k is `parseInt` of characters 2k to 2k+1 of the text after the first character |
| RgbColor.FromHexOfHex | src/lib/rgb.ts:19-30 | for one character followed by six hex digits, every channel is a byte, and `toHex()` is `#` plus those six digits lower-cased |
| RgbColor.ToHexWithoutHash | src/lib/rgb.ts:111-115 | `toHex(false)` is `toHex(true)` without its leading `#` |
| RgbColor.ToHexShape | src/lib/rgb.ts:111-115 | byte channels print as `#` followed by exactly six lower-case hex digits |
| RgbColor.HexRoundTrip | src/lib/rgb.ts:111-115 | for every colour whose channels are bytes, `fromHex(toHex())` gives back exactly that colour |
| Hex.ChannelHexOfByte | src/lib/rgb.ts:112 | a byte prints as exactly two lower-case hex digits whose value is the byte |
| Hex.ReadBackByte | src/lib/rgb.ts:21 | `parseInt(_, 16)` reads back the two digits a byte prints as |
| Hex.ParseTwoHexDigits | src/lib/rgb.ts:21 | two hex digits of either case parse to their value, a byte, and that value prints as the two digits lower-cased |
| Hex.ParseHexDigits | src/lib/rgb.ts:21 | a non-empty string of hex digits parses to its base-16 value |
| Hex.ReadHexChannel | src/lib/rgb.ts:20-23 | over six hex digits after the first character, each channel reads as the value of its two digits and prints back as them lower-cased |
| Hex.PairChunk | src/lib/rgb.ts:21-23 | a chunk holding one hex digit twice reads as 17 times that digit |
| Js.DigitsValue | src/lib/rgb.ts:112 | reading back the digits `toString(radix)` prints gives the number |
| Js.IntToString | src/lib/rgb.ts:112 | `toString(radix)` starts with `-` exactly for negative numbers, and every other character is a digit of the radix |
| Js.HexPrefix | src/lib/rgb.ts:21 | `parseInt` reads the longest prefix of hex digits: every character of it is a hex digit, and the character after it is not |
| Js.TrimStart | src/lib/rgb.ts:21 | `parseInt` first drops the leading white space: what remains is a suffix of the text, every character dropped is white space, and what remains is empty or starts with a character that is not white space |
| RgbColor.SetRed | src/lib/rgb.ts:68-72 | the new red is the argument, or 0 when it is falsy; green and blue are unchanged |
| RgbColor.SetGreen | src/lib/rgb.ts:79-83 | the new green is the argument, or 0 when it is falsy; red and blue are unchanged |
| RgbColor.SetBlue | src/lib/rgb.ts:90-94 | the new blue is the argument, or 0 when it is falsy; red and green are unchanged |
| RgbColor.SetterLaws | src/lib/rgb.ts:68-94 | a second set of a channel overrides the first; setting a channel to its current value changes nothing; setters of different channels commute |
| RgbColor.FromString | src/lib/rgb.ts:42-54 | accepts exactly the texts that have a way through the pattern; otherwise throws "Não é um Rgb válido"; every accepted channel is in 0..255 |
| Regex.SearchSound | src/lib/rgb.ts:44-45 | what the backtracking search returns is a way through the pattern |
| Regex.SearchComplete | src/lib/rgb.ts:44-45 | when any way through the pattern exists, the search finds one |
| Regex.CapturesAreTokens | src/lib/rgb.ts:44 | each capture of a way through the pattern is a token its group admits |
| Regex.TokenInRange | src/lib/rgb.ts:44 | a token of a group never exceeds the group's bound: 255, 360 or 100 |
| Regex.CandidatesFit | src/lib/rgb.ts:44 | the lengths the matcher tries for an atom are exactly the lengths that atom can consume |
| Regex.BodyPositions | src/lib/rgb.ts:44 | over three runs of digits parted by gaps holding no digit and no `)`, a way through the pattern's body has exactly one layout: each group takes one whole run |
| Regex.BodyMatch | src/lib/rgb.ts:44 | over three runs of digits parted by gaps holding no digit and no `)`, the body matches exactly when each run is a token of its group and the separators and tail fit |
| RgbColor.FromStringOfRuns | src/lib/rgb.ts:44-53 | after `rgb(`, three digit runs parted by commas and white space and closed by `)` are accepted exactly when each run is a byte token, and are read as the three channels |
| RgbColor.FromStringOfParts | src/lib/rgb.ts:44-53 | `rgb(` a sep b sep c `)` in any case, followed by anything, is accepted exactly when a, b and c are byte tokens, and gives (a, b, c) |
| RgbColor.AcceptedStartsWithRgb | src/lib/rgb.ts:44 | every accepted text starts with `rgb` in some case |
| RgbColor.DocumentedExample | src/lib/rgb.ts:36 | `rgb(100, 105, 87)` gives (100, 105, 87) |
| RgbColor.OutOfRangeExample | src/lib/rgb.ts:44-47 | `rgb(256,0,0)` throws |
| RgbColor.NotAColor | src/lib/rgb.ts:44-47 | `not a color` throws |
| RgbColor.AdjacentRead | src/lib/rgb.ts:44-53 | after `rgb(`, three single digits closed by `)` are read as three channels, since the separators may be empty |
| RgbColor.EmptySeparatorsExample | src/lib/rgb.ts:44-53 | `rgb(123)` gives (1, 2, 3) |
| RgbColor.NoPercentInPattern | src/lib/rgb.ts:44 | no atom of the pattern can take a `%` |
| RgbColor.PercentBeforeClose | src/lib/rgb.ts:44-47 | a text whose only `)` is its last character and follows a `%` throws |
| RgbColor.ToStringRejected | src/lib/rgb.ts:121-123 | `fromString` rejects every text that `toString()` prints, because of the `%` after blue |
| HslColor.NewHsl | src/lib/hsl.ts:9-13 | each stored field is the given one when it is a non-zero number, and 0 when it is missing, NaN or 0 |
| HslColor.NewHslOfInts | src/lib/hsl.ts:9-13 | building from integer fields keeps them as they are |
| HslColor.ToString | src/lib/hsl.ts:140-142 | defined by its body; see the rows for ToStringRoundTrip and UseHsl.HslToStringAgrees |
| HslColor.SetLightness | src/lib/hsl.ts:82-86 | the new lightness is the argument, or 0 when it is falsy; hue and saturation are unchanged |
| HslColor.SetSaturation | src/lib/hsl.ts:91-95 | the new saturation is the argument, or 0 when it is falsy; hue and lightness are unchanged |
| HslColor.SetHue | src/lib/hsl.ts:100-104 | the new hue is the argument, or 0 when it is falsy; saturation and lightness are unchanged |
| HslColor.SetterLaws | src/lib/hsl.ts:82-104 | a second set of a field overrides the first; setting a field to its current value changes nothing; setters of different fields commute |
| HslColor.FromString | src/lib/hsl.ts:24-36 | accepts exactly the texts that have a way through the pattern; otherwise throws "Não é um HSL válido"; an accepted hue is in 0..360, and saturation and lightness are in 0..100 |
| HslColor.CapturesInRange | src/lib/hsl.ts:31-35 | the three captures read as a hue in 0..360 and saturation and lightness in 0..100 |
| HslColor.FromStringOfRuns | src/lib/hsl.ts:26-35 | after `hsl(`, three digit runs parted by gaps holding no digit and no `)` and followed by a tail the pattern takes are accepted exactly when each run is a token of its group, and are read as the three fields |
| HslColor.FromStringOfParts | src/lib/hsl.ts:26-35 | `hsl(` a sep b sep c, then optional spaces and an optional `%` before `)`, is accepted exactly when a is a hue token and b and c are percentage tokens, and gives (a, b, c) |
| HslColor.ToStringRoundTrip | src/lib/hsl.ts:140-142 | for every colour with hue in 0..360 and saturation and lightness in 0..100, `fromString(toString())` gives back exactly that colour |
| HslColor.DocumentedExample | src/lib/hsl.ts:18 | `hsl(110, 80%, 80%)` gives (110, 80, 80) |
| HslColor.HueOutOfRangeExample | src/lib/hsl.ts:26-29 | `hsl(400, 80%, 80%)` throws |
| HslColor.SpaceAfterParenthesis | src/lib/hsl.ts:26-29 | a text with white space right after `hsl(` throws |
| HslColor.SpaceAfterParenthesisExample | src/lib/hsl.ts:26-29 | `hsl( 110, 80%, 80%)` throws |
| UseHsl.HexToRgb | src/lib/colors-gradient/use-hsl.ts:94-101 | each channel parses as in `Rgb.fromHex`, but is kept even when NaN instead of collapsing to 0 |
| UseHsl.RgbToHex | src/lib/colors-gradient/use-hsl.ts:78-82 | defined by its body; see the rows for RgbToHexWithoutHash, RgbToHexAgrees, HexRoundTrip and HexToHex |
| UseHsl.RgbToString | src/lib/colors-gradient/use-hsl.ts:74-76 | defined by its body; see the row for RgbToStringParses |
| UseHsl.HslToString | src/lib/colors-gradient/use-hsl.ts:84-86 | defined by its body; see the rows for HslToStringAgrees and SetLightnessLaws |
| UseHsl.NotHexIsNaN | src/lib/colors-gradient/use-hsl.ts:94-101 | a chunk that is empty or does not start with a hex digit, white space or a sign reads as NaN |
| UseHsl.NaNExample | src/lib/colors-gradient/use-hsl.ts:94-101 | `#zz0000` reads as (NaN, 0, 0), where `Rgb.fromHex` gives (0, 0, 0) |
| UseHsl.RgbToHexWithoutHash | src/lib/colors-gradient/use-hsl.ts:78-82 | `rgbToHex(c, false)` is `rgbToHex(c, true)` without its leading `#` |
| UseHsl.RgbToHexAgrees | src/lib/colors-gradient/use-hsl.ts:78-82 | on integer channels, `rgbToHex` prints what `Rgb.toHex` prints |
| UseHsl.HexRoundTrip | src/lib/colors-gradient/use-hsl.ts:78-101 | for every record whose channels are bytes, `hexToRgb(rgbToHex(c))` gives back exactly that record |
| UseHsl.HexToHex | src/lib/colors-gradient/use-hsl.ts:94-101 | for one character followed by six hex digits, every channel is a byte and `rgbToHex(hexToRgb(h))` is `#` plus the six digits lower-cased |
| UseHsl.RgbToStringParses | src/lib/colors-gradient/use-hsl.ts:74-76 | `Rgb.fromString` reads `rgbToString` of byte channels back as the same channels |
| UseHsl.HslToStringAgrees | src/lib/colors-gradient/use-hsl.ts:84-86 | `hslToString` prints what `Hsl.toString` prints, so `Hsl.fromString` reads it back for in-range fields |
| UseHsl.SetLightness | src/lib/colors-gradient/use-hsl.ts:88-92 | the copy has the given lightness, with no `\|\| 0`, and the hue and saturation of the input |
| UseHsl.SetLightnessLaws | src/lib/colors-gradient/use-hsl.ts:88-92 | a second `setLightness` overrides the first, setting the current lightness changes nothing, and the printed copy differs only in its lightness |
| UseColor.HexToRgb | src/lib/colors-gradient/use-color.ts:47-54 | the triple holds the same three channels, NaN kept, as the record `hexToRgb` of use-hsl |
| UseColor.UseColor | src/lib/colors-gradient/use-color.ts:1-45 | the two loops return the palette of the base colour |
| UseColor.PaletteOf | src/lib/colors-gradient/use-color.ts:20-44 | the palette has ten entries |
| UseColor.Palette | src/lib/colors-gradient/use-color.ts:1-45 | `useColor` always returns ten entries |
| UseColor.UpIsLighter | src/lib/colors-gradient/use-color.ts:23-25 | the lighter loop's channel at step i is c + floor(i(255 - c)/5), and NaN stays NaN |
| UseColor.DownIsDarker | src/lib/colors-gradient/use-color.ts:35-37 | the darker loop's channel at step i is c - ceil(i(255 - c)/5), and NaN stays NaN |
| UseColor.LoopsMakePalette | src/lib/colors-gradient/use-color.ts:20-44 | the five entries each loop pushes, concatenated, are the palette |
| UseColor.PushLighter | src/lib/colors-gradient/use-color.ts:21-28 | each pass of the lighter loop appends entry i and keeps the loop invariant |
| UseColor.PushDarker | src/lib/colors-gradient/use-color.ts:33-40 | each pass of the darker loop appends entry i and keeps the loop invariant |
| UseColor.LighterSteps | src/lib/colors-gradient/use-color.ts:21-27 | lighter channels lie between c and 255, never go down as i grows, and reach 255 at i = 5 |
| UseColor.DarkerSteps | src/lib/colors-gradient/use-color.ts:33-39 | darker channels never go up as i grows, never exceed c, never fall below 2c - 255, and equal 2c - 255 at i = 5 |
| UseColor.FifthLighterIsWhite | src/lib/colors-gradient/use-color.ts:21-27 | when no base channel is NaN, the fifth entry is `#ffffff` |
| UseColor.Channel | src/lib/colors-gradient/use-color.ts:49-51 | over six hex digits after the first character, each base channel is a byte |
| UseColor.AllWellFormedHex | src/lib/colors-gradient/use-color.ts:23-37 | over a hex colour, all ten entries are `#` plus six lower-case hex digits exactly when every base channel is at least 128 |
| UseColor.AllWellFormed | src/lib/colors-gradient/use-color.ts:23-37 | over byte channels, all ten entries are well formed exactly when every channel is at least 128 |
| UseColor.ShadeIsByte | src/lib/colors-gradient/use-color.ts:23-37 | from a base channel of at least 128, every shade is a byte |
| UseColor.EntryOfBytes | src/lib/colors-gradient/use-color.ts:23-25 | three byte channels print as a well-formed entry |
| UseColor.NegativeEntry | src/lib/colors-gradient/use-color.ts:35-37 | an entry with a negative channel is not well formed |
| UseColor.MinusPrinted | src/lib/colors-gradient/use-color.ts:35-37 | a negative channel prints with a `-` |
| UseColor.NegativePair | src/lib/colors-gradient/use-color.ts:35-37 | -17d prints as `-` followed by digit d twice |
| UseColor.ChannelIndependence | src/lib/colors-gradient/use-color.ts:23-37 | in two well-formed entries at the same position, a channel's two digits are equal whenever the base colours agree on that channel |
| UseColor.EntryDigits | src/lib/colors-gradient/use-color.ts:23-25 | in a well-formed entry, characters 1-2, 3-4 and 5-6 are the red, green and blue channel texts |
| UseColor.GreyChannels | src/lib/colors-gradient/use-color.ts:47-54 | when characters 1 to 6 are one hex digit d, each base channel is 17 times d |
| UseColor.WhiteExample | src/lib/colors-gradient/use-color.ts:13-39 | `#ffffff`, or any seven characters whose last six are `f`, gives ten copies of `#ffffff` |
| UseColor.BlackExample | src/lib/colors-gradient/use-color.ts:13-39 | `#000000`, or any seven characters whose last six are `0`, gives `#333333`, `#666666`, `#999999`, `#cccccc`, `#ffffff`, then `#-33-33-33`, `#-66-66-66`, `#-99-99-99`, `#-cc-cc-cc`, `#-ff-ff-ff` |

## Left out

- `Hsl.fromRgb`, `Hsl.toRgb`, `hexToHsl` and `hslToRgb` are not modelled. Their results depend on IEEE-754 double rounding: they divide by 255, then apply `Math.round`/`Math.floor` near .5 and near integer boundaries.
- The `console.log` calls in `useColor` are output with no effect on the result.
- `toJson` from `./utils` is not part of this model. The setters of both classes are modelled as if it copied the object faithfully.
- UseHsl.SetLightness: `JSON.parse(JSON.stringify(hsl))` turns a NaN field into `null`. The model keeps NaN in the hue and saturation it copies. It also does not model a non-numeric `lightness` argument.
- Numbers are integers or NaN. A fraction, an infinity or `-0` passed to a constructor or setter is not modelled, and neither is printing one. `parseInt` returns `-0` for a chunk such as `-0` or `-00` (in a hex text like `#-00000`); the model reads it as 0, and every modelled path treats the two alike: `-0 || 0` is 0, `(-0).toString(16)` is `0`, and `255 - -0` is 255.
- Strings are sequences of characters. Nothing about UTF-16 surrogate pairs is modelled. The `i` flag is modelled as ASCII case folding, which covers every letter of the two patterns.
- The darker half of the palette subtracts the distance to white, not the distance to black. The model follows the code, so dark base channels print negative numbers with a `-`.
- RgbColor.FromStringOfParts: states the round trip only for non-empty separators of commas and white space, with `rgb` directly before `(`, nothing between `(` and the first number, and nothing between the last number and `)`. Texts such as `rgb (1,2,3)` or `rgb( 1,2,3 )`, which the pattern's `\s?` positions accept, are covered only by the general contract of RgbColor.FromString. Empty separators are covered separately by AdjacentRead and EmptySeparatorsExample.
- HslColor.FromStringOfParts: states the round trip only for non-empty separators that contain no digit and no `)`, with `hsl` directly before `(`. A text such as `hsl (1,2%,3%)`, which the pattern's `\s?` before `(` accepts, is covered only by the general contract of HslColor.FromString. Every text `toString()` prints is in the covered shape.
- UseColor.FifthLighterIsWhite: holds only when no base channel is NaN. A NaN channel prints as `NaN` in every entry.
- UseColor.ChannelIndependence: stated for well-formed entries only. Elsewhere a `NaN` or `-` channel text shifts the positions of the channels after it.

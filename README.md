# Colour and mood helpers of the design-guide generator

This project models the part of the page script of a browser design-guide generator that can be stated exactly:

- the colour helpers:
  - `hexToRgb`, which decodes `#RGB` or `#RRGGBB`;
  - `getContrastYIQ`, which picks black or white text by YIQ brightness;
  - `lightenDarkenColor`, which shifts every channel by an amount and clamps it;
- the contrast-ratio step of `calculateContrast` and the four WCAG 2.x badges built on it (success criteria 1.4.3 and 1.4.6);
- `getKeywordsFromMood`, which maps the two mood sliders to a description and looks it up among the knowledge base's `iri_colors` groups, with a two-level fallback;
- the main-page handlers that manage the selected keyword, the keyword chips and the typed colour in the global `appState`.

Modules:

- `Bits` defines JavaScript's `>>` and `<<` as division and multiplication by `2^k`, and `&` and `|` bit by bit, on the operand range the script uses. These are non-negative values below 2^31, where ToInt32 changes nothing. The module proves the two facts the colour code relies on: a mask `2^k - 1` keeps the low `k` bits, and an OR of disjoint bit ranges is their sum.
- `HexColor` covers hex digits, the value of a digit string, `toString(16)`, `padStart`, and `hexToRgb`. On `""` and `"#"`, `'0x'` parses to NaN, which the bitwise operators turn into 0. The same happens when the first character takes two UTF-16 code units: `substring(1)` keeps its second half, a lone surrogate. The decoder is therefore total on its domain and never yields `null`.
- `Shade` models `lightenDarkenColor` as a function. It keeps the source's steps and its locals `r`, `b`, `g`; the last two actually hold green and blue.
- `ReadableText` models `getContrastYIQ`. Its real-valued test is proved equal to an integer threshold.
- `Contrast` holds the contrast ratio over real luminances in [0, 1] and the WCAG verdicts. The luminance of a colour is a parameter.
- `Mood` holds the mood description, the first-match lookup and the fallbacks.
- `AppStateModel` defines the class `AppState`. Its methods update `appState` as the slider, chip, colour-field and colour-picker handlers do.

## Model

| member | source | states |
|---|---|---|
| Bits.AndLowMask | script.js:616-619 | `n & (2^k - 1)` is `n mod 2^k`: the `& 255` masks keep exactly the low byte |
| Bits.OrDisjoint | script.js:673 | for `x < 2^k`, `x \| (y << k)` equals `x + (y << k)`: the repacking OR adds disjoint byte ranges |
| HexColor.HexValue | script.js:615 | a string of `k` hex digits parses to a number below `16^k` |
| HexColor.ExpandedDigits | script.js:611-614 | the digits after the first character; a three-digit form becomes six digits, digit `i` being input digit `i / 2` |
| HexColor.Unpack | script.js:616-620 | the three masked fields of a number are bytes (their div/mod form is `UnpackDivMod`) |
| HexColor.HexToRgb | script.js:610-621 | the decoded colour has every channel in [0, 255] |
| HexColor.UnpackDivMod | script.js:616-620 | the red, green and blue fields are bytes 2, 1 and 0 of the parsed number |
| HexColor.RepackUnpack | script.js:616-620 | the three extracted bytes recombine to the parsed 24-bit number |
| HexColor.UnpackPacked | script.js:616-620 | packing three bytes and extracting them gives the same three bytes back |
| HexColor.ToHexValue | script.js:673 | `toString(16)` yields a non-empty string of lower-case digits whose value is the number |
| HexColor.ToHexLength | script.js:673 | a number below `16^k` is written in at most `k` digits |
| HexColor.PadStartShape | script.js:673 | `padStart` gives the larger of the input's length and `width`, ends with the input and is `fill` before it |
| HexColor.PadZerosValue | script.js:673 | `padStart` with `'0'` keeps the digits' value |
| HexColor.LowerAllValue | script.js:610-621 | lower-casing a digit string keeps its value |
| HexColor.LowerHexInjective | script.js:673 | two lower-case digit strings of one length and one value are the same string |
| HexColor.HexColorInputDecodable | script.js:112 | every string the colour-field regex accepts is decodable to six digits |
| HexColor.DecodeSixDigits | script.js:610-621 | `#RRGGBB` decodes to the byte values of its digit pairs, in order red, green, blue |
| HexColor.DecodeThreeDigits | script.js:612-614 | `#RGB` decodes like `#RRGGBB`, so each channel is 17 times its digit |
| HexColor.DecodeIgnoresCase | script.js:610-621 | lower-casing the input does not change the decoded colour |
| HexColor.DecodeNoDigits | script.js:611-620 | `""` and `"#"` decode to black instead of failing |
| HexColor.DecodeTwoUnitFirst | script.js:611-620 | a first character outside the Basic Multilingual Plane makes the string decode to black, whatever follows |
| HexColor.DecodeTwoUnitExample | script.js:611-620 | `"\U{1F600}abc"` decodes to black while `"#abc"` decodes to (170, 187, 204) |
| ReadableText.Yiq | script.js:652 | the YIQ brightness of an in-gamut colour lies in [0, 255], and it reaches 128 exactly when `299r + 587g + 114b >= 128000` |
| ReadableText.GetContrastYIQ | script.js:649-654 | the answer is true exactly when `299r + 587g + 114b >= 128000` for the decoded colour |
| ReadableText.LightMonotone | script.js:649-654 | raising channels never turns a light colour dark |
| ReadableText.WhiteIsLight | script.js:649-654 | `#ffffff` and `#FFF` take black text |
| ReadableText.BlackIsDark | script.js:649-654 | `#000000` and `#000` take white text |
| ReadableText.EmptyIsDark | script.js:649-654 | `""` and `"#"` decode to black and take white text; the `!rgb` guard never fires |
| ReadableText.GreyThreshold | script.js:653 | the bound is inclusive: `#808080` is light, `#7f7f7f` is not |
| Shade.Clamp | script.js:665-672 | the clamped value is always a byte |
| Shade.ClampNearest | script.js:665-672 | no byte is nearer to `x` than its clamped value, so a byte is left unchanged |
| Shade.LightenDarkenColor | script.js:657-674 | the output is as long as the input and starts with `#` exactly when the input does |
| Shade.ShiftedText | script.js:663-673 | the shifted, repacked number is written as six lower-case digits |
| Shade.PackedText | script.js:673 | `(g \| (b << 8) \| (r << 16)).toString(16).padStart(6, '0')` of three bytes is six lower-case digits worth `65536 r + 256 g + b` |
| Shade.ShadeDigits | script.js:658-663 | the output is the optional `#` and the shifted text of the parsed digits |
| Shade.ShadeUnfold | script.js:657-673 | the output is the optional `#` followed by the packed text of the three channels of the input, each shifted and clamped |
| Shade.ShiftedTextChannels | script.js:663-673 | the shifts and masks on the parsed number read red, green and blue in that order |
| Shade.ShadeFormat | script.js:658-662 | the output starts with `#` exactly when the input did, and the rest is exactly six lower-case digits |
| Shade.ShadeChannels | script.js:663-673 | each output channel is the same input channel plus `amt`, clamped to [0, 255]; no channels are swapped |
| Shade.ShadeByZero | script.js:657-674 | a zero shift returns the input lower-cased |
| Shade.ExtractChannels | script.js:664-670 | `num >> 16`, `(num >> 8) & 0xFF` and `num & 0xFF` are the red, green and blue bytes of a 24-bit number |
| Shade.PackChannels | script.js:673 | `g \| (b << 8) \| (r << 16)` is the 24-bit number with red high and blue low |
| Shade.PackedTextDecodes | script.js:673 | the packed text of three bytes decodes back to those bytes |
| Shade.SixDigitText | script.js:673 | `toString(16).padStart(6, '0')` of a 24-bit number is six digits worth that number |
| Shade.ZeroShiftDigits | script.js:663-673 | repacking unshifted channels spells the digits again, lower-cased |
| Contrast.ContrastRatio | script.js:642-645 | for luminances in [0, 1], `(brightest + 0.05) / (darkest + 0.05)` lies in [1, 21] |
| Contrast.RatioBounds | script.js:645 | the quotient's bounds 1 and 21 for `0 <= darkest <= brightest <= 1` |
| Contrast.RatioSymmetric | script.js:642-645 | the ratio does not depend on argument order |
| Contrast.RatioOneIffEqual | script.js:642-645 | the ratio is 1 exactly when the luminances are equal |
| Contrast.RatioMaxIffFullRange | script.js:642-645 | the ratio is 21 exactly for luminances 1 and 0 |
| Contrast.CalculateContrast | script.js:633-646 | the contrast of two decodable colours is in [1, 21], and it is 1 for two equal colours; the null guard is dead |
| Contrast.ContrastSymmetric | script.js:633-646 | background and text may be swapped |
| Contrast.Verdicts | script.js:381-384 | AAA-normal implies AA-normal and AAA-large, AA-normal implies AA-large, and AA-normal equals AAA-large |
| Contrast.VerdictsMonotone | script.js:381-384 | a higher ratio never loses a badge |
| Contrast.VerdictBands | script.js:381-384 | below 3, no badge; from 3, AA-large only; from 4.5, all but AAA-normal; from 7, all four; every bound is inclusive |
| Contrast.VerdictExtremes | script.js:377-384 | a colour against itself fails every badge, and luminances 1 and 0 pass all four |
| Mood.MoodDescription | script.js:170-177 | the result is one of four descriptions; it starts with "Soft" exactly when `soft > 50` and ends with "Static" exactly when `staticMood > 50` |
| Mood.SameDescriptionIffSameSides | script.js:170-177 | two moods share a description exactly when they fall on the same side of 50 on both sliders |
| Mood.NeutralMood | script.js:170-177 | the sliders at (50, 50) read "Hard + Dynamic" |
| Mood.FirstIndex | script.js:180 | `find` returns the first group that matches; every group before it fails to match |
| Mood.GetKeywordsFromMood | script.js:165-188 | the result is the keywords of the first group whose description matches; with no match, it is the fallback; it is `undefined` only when a group lacks `keywords` |
| Mood.FallbackKeywords | script.js:187 | the fallback is the default pair or the keyword list of an entry named `group1` |
| Mood.FallbackChoice | script.js:187 | the fallback is group1's keyword list whenever it has one, even an empty one, and the default pair otherwise |
| Mood.FallbackWithoutGroup1 | script.js:187 | without a group1 entry the fallback is the default pair |
| Mood.MissingGroups | script.js:179-187 | a knowledge base without `iri_colors` gives the default pair and does not fail |
| Mood.EmptyGroup1Counts | script.js:187 | an empty group1 list is returned, not replaced by the default |
| Mood.FirstMatchWins | script.js:180-184 | of two groups with the same description, the earlier one is used |
| AppStateModel.Retained | script.js:159-161 | the kept selection is empty or on offer; a selection on offer is kept; nothing else is substituted |
| AppStateModel.RetainedClearsOnlyMissing | script.js:159-161 | a selection is cleared exactly when it is no longer offered |
| AppStateModel.AppState.RequestedColor | script.js:215 | `primaryColor \|\| null` is none exactly when no colour is set, and a set colour decodes as six digits |
| AppStateModel.AppState.constructor | script.js:6-17 | the initial state: sliders at 50, no keyword, no primary colour |
| AppStateModel.AppState.SetSoft | script.js:102 | the soft slider's value is stored and nothing else changes |
| AppStateModel.AppState.SetStatic | script.js:103 | the static slider's value is stored and nothing else changes |
| AppStateModel.AppState.UpdateKeywordChips | script.js:132-162 | the chips become the mood's keywords, and the selected keyword is kept only if it is among them. When the resolver gives `undefined`, the chips are cleared and the selection stays |
| AppStateModel.AppState.ClickChip | script.js:150-154 | a click selects that chip's keyword, which is therefore on offer |
| AppStateModel.AppState.OnColorInput | script.js:110-116 | a colour the regexes accept (`IsHexColorInput`) becomes the primary colour; other input is ignored; a valid primary colour stays valid |
| AppStateModel.AppState.OnColorPick | script.js:119-122 | the picker's value becomes the primary colour, and it is decodable |

## Left out

- `getLuminance` (script.js:624-630) is not modelled. It uses floating-point `Math.pow`, so `Contrast` takes the luminance as a function parameter that maps colours into [0, 1].
- `getComplementaryColor` (script.js:678 onward) is not modelled. It is floating-point HSL arithmetic, and nothing in the script calls it.
- `HexColor.HexToRgb` is modelled only for strings of at most one character, strings whose first character takes two UTF-16 code units, and 3 or 6 hex digits after a one-unit first character. Other lengths and non-hex characters depend on JavaScript's `Number('0x…')` coercion and are excluded by its precondition.
- `Shade.LightenDarkenColor` is modelled only for six hex digits, with or without `#`. The source parses a 3-digit input as a 12-bit number without expanding it. Neither this nor any malformed input is modelled.
- `Shade.LightenDarkenColor` takes an integer `amt`. A fractional amount would make the channels non-integers before the bitwise OR truncates them.
- The lab page's `updateColors` handler (script.js:294-319) is not modelled. It can store `undefined` as a colour, and decoding that throws; the model requires a defined string.
- `AppStateModel.AppState.UpdateKeywordChips`: the throw from `forEach` on `undefined` is modelled as `ok == false`. The chips that a successful call would show, the `active` CSS class and the click listeners are DOM work. Only the list of chips and the selected keyword are kept.
- `AppStateModel.AppState.OnColorPick` requires what the browser guarantees for a colour picker's value: `#` and six lower-case digits.
- The `iri_colors` object is an ordered sequence of named entries. JavaScript property names are distinct, so looking up `group1` takes the first entry with that name.
- These are not modelled, because they are I/O, DOM rendering, timers or network calls:
  - knowledge-base `fetch`, start-up and navigation;
  - the generation request;
  - the typing effect;
  - clipboard copy;
  - report and showcase rendering;
  - code-template output;
  - the textual `toFixed(2)` display of the ratio.
- The service and platform fields of `appState` and the stored generation result are not modelled; the core reads neither.
- The `if (!rgb)` guards at script.js:637, 651 and 680 expect `hexToRgb` to return nothing for an empty input. The code always returns a colour, and for `""` or `"#"` that colour is black. The model follows the code (`HexColor.DecodeNoDigits`, `ReadableText.EmptyIsDark`).

/** `lightenDarkenColor`: add an amount to every channel of a six-digit hex
    colour, clamp each channel to [0,255] and write the colour out again. */
module Shade {
  import opened Bits
  import opened HexColor

  /** The inputs the brightness shift is modelled on: six hexadecimal digits,
      with or without a leading '#'. */
  predicate IsShadeInput(hex: string)
  {
    (|hex| == 7 && hex[0] == '#' && AllHex(hex[1..])) || (|hex| == 6 && AllHex(hex))
  }

  /** The digits after an optional leading '#'. */
  function DigitsOf(hex: string): string
    requires |hex| > 0
  {
    if hex[0] == '#' then hex[1..] else hex
  }

  /** `if (x > 255) x = 255; else if (x < 0) x = 0;` */
  function Clamp(x: int): (r: int)
    ensures IsByte(r)
  {
    if x > 255 then 255 else if x < 0 then 0 else x
  }

  /** No byte is nearer to `x` than `Clamp(x)`. */
  lemma ClampNearest(x: int, y: int)
    requires IsByte(y)
    ensures Distance(Clamp(x), x) <= Distance(y, x)
  {
  }

  function Distance(a: int, b: int): nat
  {
    if a >= b then a - b else b - a
  }

  /** The colour with `amt` added to each channel, each clamped on its own. */
  function Shifted(c: Rgb, amt: int): Rgb
  {
    Rgb(Clamp(c.r + amt), Clamp(c.g + amt), Clamp(c.b + amt))
  }

  /** `lightenDarkenColor(hex, amt)`: strip an optional '#', read the digits
      with `parseInt(hex, 16)`, shift the number, and put the '#' back. */
  function LightenDarkenColor(hex: string, amt: int): (out: string)
    requires IsShadeInput(hex)
    ensures |out| == |hex| && (out[0] == '#' <==> hex[0] == '#')
  {
    var usePound := hex[0] == '#';
    var digits := if usePound then hex[1..] else hex;
    (if usePound then "#" else "") + ShiftedText(HexValue(digits), amt)
  }

  /** The arithmetic of `lightenDarkenColor` on the parsed number `num`, one
      binding per assignment of the source. The locals `b` and `g` hold the
      green and the blue channel (the source's own names). */
  function ShiftedText(num: nat, amt: int): (text: string)
    ensures |text| == 6 && AllLowerHex(text)
  {
    var r := Clamp(Shr(num, 16) + amt);
    var b := Clamp(BitAnd(Shr(num, 8), 0x00FF) + amt);
    var g := Clamp(BitAnd(num, 0x0000FF) + amt);
    PackedText(r, b, g)
  }

  /** `(g | (b << 8) | (r << 16)).toString(16).padStart(6, '0')` in the
      source's names; `ShiftedText` passes its `b` as `g` here, which is the
      green channel, so the name matches the bits it lands in. */
  function PackedText(r: int, g: int, b: int): (text: string)
    requires IsByte(r) && IsByte(g) && IsByte(b)
    ensures |text| == 6 && AllLowerHex(text) && AllHex(text)
    ensures HexValue(text) == 0x1_0000 * r + 0x100 * g + b
  {
    PackChannels(r, g, b);
    SixDigitText(0x1_0000 * r + 0x100 * g + b);
    PadStart(ToHex(BitOr(BitOr(b, Shl(g, 8)), Shl(r, 16))), 6, '0')
  }

  // ---------------------------------------------------------------------
  // Properties of lightenDarkenColor
  // ---------------------------------------------------------------------

  /** The digits of the output are the packed text of the three shifted
      channels of the input's digits, in the order red, green, blue. */
  lemma ShadeUnfold(hex: string, amt: int)
    requires IsShadeInput(hex)
    ensures |DigitsOf(hex)| == 6 && AllHex(DigitsOf(hex))
    ensures HexValue(DigitsOf(hex)) < 0x100_0000
    ensures var c := Unpack(HexValue(DigitsOf(hex)));
      LightenDarkenColor(hex, amt)
      == (if hex[0] == '#' then "#" else "") + PackedText(Clamp(c.r + amt), Clamp(c.g + amt), Clamp(c.b + amt))
  {
    var num := HexValue(DigitsOf(hex));
    assert num < 0x100_0000 by {
      assert Pow16(6) == 0x100_0000;
    }
    ShadeDigits(hex, amt);
    ShiftedTextChannels(num, amt);
  }

  /** The output is the optional '#' and the shifted text of the digits. */
  lemma ShadeDigits(hex: string, amt: int)
    requires IsShadeInput(hex)
    ensures |DigitsOf(hex)| == 6 && AllHex(DigitsOf(hex))
    ensures LightenDarkenColor(hex, amt)
      == (if hex[0] == '#' then "#" else "") + ShiftedText(HexValue(DigitsOf(hex)), amt)
  {
  }

  lemma ShiftedTextChannels(num: nat, amt: int)
    requires num < 0x100_0000
    ensures var c := Unpack(num);
      ShiftedText(num, amt) == PackedText(Clamp(c.r + amt), Clamp(c.g + amt), Clamp(c.b + amt))
  {
    ExtractChannels(num);
  }

  /** lightenDarkenColor keeps the '#' exactly when the input had one, and
      always writes six lower-case digits after it. */
  lemma ShadeFormat(hex: string, amt: int)
    requires IsShadeInput(hex)
    ensures var out := LightenDarkenColor(hex, amt);
      |out| > 0 && (out[0] == '#' <==> hex[0] == '#')
      && |DigitsOf(out)| == 6 && AllLowerHex(DigitsOf(out))
  {
    ShadeUnfold(hex, amt);
    var c := Unpack(HexValue(DigitsOf(hex)));
    var r, g, b := Clamp(c.r + amt), Clamp(c.g + amt), Clamp(c.b + amt);
    OptionalPound(hex[0] == '#', PackedText(r, g, b));
  }

  /** Each channel of the output is the same channel of the input with `amt`
      added and clamped to [0,255]: red stays red, green stays green and blue
      stays blue, despite the names of the locals. */
  lemma ShadeChannels(hex: string, amt: int)
    requires IsShadeInput(hex)
    ensures var out := LightenDarkenColor(hex, amt);
      |out| > 0 && Decodable("#" + DigitsOf(out)) && Decodable("#" + DigitsOf(hex))
      && HexToRgb("#" + DigitsOf(out)) == Shifted(HexToRgb("#" + DigitsOf(hex)), amt)
  {
    ShadeUnfold(hex, amt);
    var c := Unpack(HexValue(DigitsOf(hex)));
    var r, g, b := Clamp(c.r + amt), Clamp(c.g + amt), Clamp(c.b + amt);
    PackedTextDecodes(r, g, b);
    OptionalPound(hex[0] == '#', PackedText(r, g, b));
    DecodeSix(DigitsOf(hex));
  }

  /** With a zero amount the colour comes back unchanged, lower-cased, with
      its '#' if it had one. */
  lemma ShadeByZero(hex: string)
    requires IsShadeInput(hex)
    ensures LightenDarkenColor(hex, 0) == LowerAll(hex)
  {
    ShadeUnfold(hex, 0);
    ZeroShiftDigits(DigitsOf(hex));
    if hex[0] == '#' {
      assert LowerAll(hex) == "#" + LowerAll(DigitsOf(hex));
    }
  }

  // ---------------------------------------------------------------------
  // Helpers
  // ---------------------------------------------------------------------

  /** The source's shifts and masks read the three bytes `Unpack` reads. */
  lemma ExtractChannels(n: nat)
    requires n < 0x100_0000
    ensures Shr(n, 16) == Unpack(n).r
    ensures BitAnd(Shr(n, 8), 0x00FF) == Unpack(n).g && BitAnd(n, 0x0000FF) == Unpack(n).b
  {
    assert Pow2(16) == 0x1_0000 && Pow2(8) - 1 == 255;
    var hi := Shr(n, 16);
    assert hi < 0x100;
    AndLowMask(hi, 8);
    ModUnique(hi, 0x100, 0, hi);
  }

  /** Six digits behind a '#' decode to the bytes of their value. */
  lemma DecodeSix(digits: string)
    requires |digits| == 6 && AllHex(digits)
    ensures Decodable("#" + digits) && HexValue(digits) < 0x100_0000
    ensures HexToRgb("#" + digits) == Unpack(HexValue(digits))
  {
    assert Pow16(6) == 0x100_0000;
    assert ExpandedDigits("#" + digits) == digits;
  }

  /** The packed number is the 24-bit value with `r` in the high, `g` in the
      middle and `b` in the low byte, and the text spells it. */
  lemma PackChannels(r: int, g: int, b: int)
    requires IsByte(r) && IsByte(g) && IsByte(b)
    ensures BitOr(BitOr(b, Shl(g, 8)), Shl(r, 16)) == 0x1_0000 * r + 0x100 * g + b
  {
    assert Pow2(16) == 0x1_0000 && Pow2(8) == 0x100;
    OrDisjoint(b, g, 8);
    OrDisjoint(b + Shl(g, 8), r, 16);
  }

  /** Repacking the bytes of six digits, shifted by nothing, spells the
      digits again in lower case. */
  lemma ZeroShiftDigits(digits: string)
    requires |digits| == 6 && AllHex(digits)
    ensures HexValue(digits) < 0x100_0000
    ensures var c := Unpack(HexValue(digits));
      PackedText(Clamp(c.r + 0), Clamp(c.g + 0), Clamp(c.b + 0)) == LowerAll(digits)
  {
    assert Pow16(6) == 0x100_0000;
    var num := HexValue(digits);
    var c := Unpack(num);
    assert Clamp(c.r + 0) == c.r && Clamp(c.g + 0) == c.g && Clamp(c.b + 0) == c.b;
    RepackUnpack(num);
    SameDigitsAgain(digits, PackedText(c.r, c.g, c.b));
  }

  /** The packed text of three bytes decodes back to those bytes. */
  lemma PackedTextDecodes(r: int, g: int, b: int)
    requires IsByte(r) && IsByte(g) && IsByte(b)
    ensures |PackedText(r, g, b)| == 6 && AllHex(PackedText(r, g, b))
    ensures Decodable("#" + PackedText(r, g, b)) && HexToRgb("#" + PackedText(r, g, b)) == Rgb(r, g, b)
  {
    var text := PackedText(r, g, b);
    DecodeSix(text);
    assert HexToRgb("#" + text) == Unpack(0x1_0000 * r + 0x100 * g + b);
    UnpackPacked(r, g, b);
  }

  /** `n.toString(16).padStart(6, '0')` for a 24-bit `n` is six lower-case
      digits worth `n`. */
  lemma SixDigitText(n: nat)
    requires n < 0x100_0000
    ensures var text := PadStart(ToHex(n), 6, '0');
      |text| == 6 && AllLowerHex(text) && AllHex(text) && HexValue(text) == n
  {
    assert Pow16(6) == 0x100_0000;
    ToHexValue(n);
    ToHexLength(n, 6);
    PadZerosValue(ToHex(n), 6);
    PadStartShape(ToHex(n), 6, '0');
  }

  /** The '#' is written back exactly when it was read, ahead of the digits. */
  lemma OptionalPound(usePound: bool, text: string)
    requires |text| == 6 && AllLowerHex(text)
    ensures var out := (if usePound then "#" else "") + text;
      |out| > 0 && (out[0] == '#' <==> usePound) && DigitsOf(out) == text
  {
    var out := (if usePound then "#" else "") + text;
    if usePound {
      assert out[1..] == text;
    } else {
      assert out == text && IsLowerHexDigit(text[0]);
    }
  }

  /** Six lower-case digits worth as much as six given digits are those
      digits lower-cased. */
  lemma SameDigitsAgain(digits: string, text: string)
    requires |digits| == 6 && AllHex(digits)
    requires |text| == 6 && AllLowerHex(text) && AllHex(text)
    requires HexValue(text) == HexValue(digits)
    ensures text == LowerAll(digits)
  {
    LowerAllValue(digits);
    LowerHexInjective(text, LowerAll(digits));
  }
}

/** `getContrastYIQ`: whether a background colour is light enough to carry
    black text, by its YIQ brightness. */
module ReadableText {
  import opened HexColor

  /** The YIQ brightness `(299 r + 587 g + 114 b) / 1000`, in [0, 255]. */
  function Yiq(c: Rgb): (yiq: real)
    ensures InGamut(c) ==> 0.0 <= yiq <= 255.0
    ensures yiq >= 128.0 <==> IsLight(c)
  {
    (c.r * 299 + c.g * 587 + c.b * 114) as real / 1000.0
  }

  /** A colour counts as light when its weighted channel sum reaches
      128000, with no division involved. */
  predicate IsLight(c: Rgb)
  {
    299 * c.r + 587 * c.g + 114 * c.b >= 128000
  }

  /** `getContrastYIQ(hex)`. The source's `if (!rgb) return false` guard is
      dead: the decode always yields a colour, so it is not modelled. */
  function GetContrastYIQ(hex: string): (light: bool)
    requires Decodable(hex)
    ensures light <==> IsLight(HexToRgb(hex))
  {
    var rgb := HexToRgb(hex);
    Yiq(rgb) >= 128.0
  }

  /** Channel-wise brighter colours are at least as readable with black text. */
  predicate Brighter(c: Rgb, d: Rgb)
  {
    c.r >= d.r && c.g >= d.g && c.b >= d.b
  }

  /** Lightness only grows as channels grow. */
  lemma LightMonotone(hex1: string, hex2: string)
    requires Decodable(hex1) && Decodable(hex2)
    requires Brighter(HexToRgb(hex2), HexToRgb(hex1))
    ensures GetContrastYIQ(hex1) ==> GetContrastYIQ(hex2)
  {
  }

  /** White, in either form, carries black text. */
  lemma WhiteIsLight()
    ensures Decodable("#ffffff") && GetContrastYIQ("#ffffff")
    ensures Decodable("#FFF") && GetContrastYIQ("#FFF")
  {
    DecodeSixDigits("#ffffff");
    DecodeThreeDigits("#FFF");
  }

  /** Black, in either form, carries white text. */
  lemma BlackIsDark()
    ensures Decodable("#000000") && !GetContrastYIQ("#000000")
    ensures Decodable("#000") && !GetContrastYIQ("#000")
  {
    DecodeSixDigits("#000000");
    DecodeThreeDigits("#000");
  }

  /** The empty string decodes to black, so it, too, asks for white text. */
  lemma EmptyIsDark()
    ensures Decodable("") && !GetContrastYIQ("")
    ensures Decodable("#") && !GetContrastYIQ("#")
  {
    DecodeNoDigits("");
    DecodeNoDigits("#");
  }

  /** The threshold is inclusive: mid grey with brightness exactly 128 is
      light, one step darker is not. */
  lemma GreyThreshold()
    ensures Decodable("#808080") && GetContrastYIQ("#808080")
    ensures Decodable("#7f7f7f") && !GetContrastYIQ("#7f7f7f")
  {
    DecodeSixDigits("#808080");
    DecodeSixDigits("#7f7f7f");
  }
}

/** `calculateContrast` and the WCAG verdicts drawn from it. The relative
    luminance of a colour is a parameter of the model: it is a floating
    point formula whose only property used here is that it lies in [0, 1]. */
module Contrast {
  import opened HexColor

  predicate IsLuminance(l: real) { 0.0 <= l <= 1.0 }

  function Max(x: real, y: real): real { if x >= y then x else y }
  function Min(x: real, y: real): real { if x >= y then y else x }

  /** `(brightest + 0.05) / (darkest + 0.05)`: between 1 and 21 for any two
      luminances. */
  function ContrastRatio(lum1: real, lum2: real): (ratio: real)
    requires IsLuminance(lum1) && IsLuminance(lum2)
    ensures 1.0 <= ratio <= 21.0
  {
    var brightest := Max(lum1, lum2);
    var darkest := Min(lum1, lum2);
    RatioBounds(brightest, darkest);
    (brightest + 0.05) / (darkest + 0.05)
  }

  lemma RatioBounds(brightest: real, darkest: real)
    requires 0.0 <= darkest <= brightest <= 1.0
    ensures 1.0 <= (brightest + 0.05) / (darkest + 0.05) <= 21.0
  {
    var x := darkest + 0.05;
    var q := (brightest + 0.05) / x;
    assert q * x == brightest + 0.05;
    if q < 1.0 {
      PositiveProduct(1.0 - q, x);
    }
    if q > 21.0 {
      PositiveProduct(q - 21.0, x);
    }
  }

  lemma PositiveProduct(a: real, b: real)
    requires a > 0.0 && b > 0.0
    ensures a * b > 0.0
  {
  }

  /** The order of the two colours does not matter. */
  lemma RatioSymmetric(lum1: real, lum2: real)
    requires IsLuminance(lum1) && IsLuminance(lum2)
    ensures ContrastRatio(lum1, lum2) == ContrastRatio(lum2, lum1)
  {
  }

  /** The ratio is 1 exactly when the luminances agree. */
  lemma RatioOneIffEqual(lum1: real, lum2: real)
    requires IsLuminance(lum1) && IsLuminance(lum2)
    ensures ContrastRatio(lum1, lum2) == 1.0 <==> lum1 == lum2
  {
    var brightest, darkest := Max(lum1, lum2), Min(lum1, lum2);
    var q := ContrastRatio(lum1, lum2);
    assert q * (darkest + 0.05) == brightest + 0.05;
  }

  /** The ratio is 21 exactly for luminances 1 and 0. */
  lemma RatioMaxIffFullRange(lum1: real, lum2: real)
    requires IsLuminance(lum1) && IsLuminance(lum2)
    ensures ContrastRatio(lum1, lum2) == 21.0 <==> Max(lum1, lum2) == 1.0 && Min(lum1, lum2) == 0.0
  {
    var brightest, darkest := Max(lum1, lum2), Min(lum1, lum2);
    var q := ContrastRatio(lum1, lum2);
    assert q * (darkest + 0.05) == brightest + 0.05;
  }

  /** A relative luminance function on colours: every in-gamut colour gets a
      luminance in [0, 1]. */
  ghost predicate IsLuminanceFunction(luminance: Rgb -> real)
  {
    forall c: Rgb :: InGamut(c) ==> IsLuminance(luminance(c))
  }

  /** `calculateContrast(hex1, hex2)`. Its `if (!rgb1 || !rgb2) return 1`
      guard is dead, since decoding always yields a colour. */
  function CalculateContrast(hex1: string, hex2: string, luminance: Rgb -> real): (ratio: real)
    requires Decodable(hex1) && Decodable(hex2)
    requires IsLuminanceFunction(luminance)
    ensures 1.0 <= ratio <= 21.0
    ensures HexToRgb(hex1) == HexToRgb(hex2) ==> ratio == 1.0
  {
    var rgb1 := HexToRgb(hex1);
    var rgb2 := HexToRgb(hex2);
    var lum1 := luminance(rgb1);
    var lum2 := luminance(rgb2);
    RatioOneIffEqual(lum1, lum2);
    ContrastRatio(lum1, lum2)
  }

  /** The contrast of two colours does not depend on which is the text. */
  lemma ContrastSymmetric(hex1: string, hex2: string, luminance: Rgb -> real)
    requires Decodable(hex1) && Decodable(hex2)
    requires IsLuminanceFunction(luminance)
    ensures CalculateContrast(hex1, hex2, luminance) == CalculateContrast(hex2, hex1, luminance)
  {
    RatioSymmetric(luminance(HexToRgb(hex1)), luminance(HexToRgb(hex2)));
  }

  /** The four pass/fail badges of the preview. */
  datatype WcagVerdicts = WcagVerdicts(aaNormal: bool, aaLarge: bool, aaaNormal: bool, aaaLarge: bool)

  /** The badges for a contrast ratio: AA needs 4.5 for normal and 3 for
      large text, AAA needs 7 for normal and 4.5 for large text, each bound
      inclusive. Every stricter badge implies the looser ones, and AA for
      normal text is the same test as AAA for large text. */
  function Verdicts(ratio: real): (v: WcagVerdicts)
    ensures v.aaaNormal ==> v.aaNormal && v.aaaLarge
    ensures v.aaNormal ==> v.aaLarge
    ensures v.aaNormal == v.aaaLarge
  {
    WcagVerdicts(ratio >= 4.5, ratio >= 3.0, ratio >= 7.0, ratio >= 4.5)
  }

  /** Count of badges passed. */
  function Passed(v: WcagVerdicts): nat
  {
    (if v.aaNormal then 1 else 0) + (if v.aaLarge then 1 else 0)
    + (if v.aaaNormal then 1 else 0) + (if v.aaaLarge then 1 else 0)
  }

  /** A higher ratio never loses a badge. */
  lemma VerdictsMonotone(lo: real, hi: real)
    requires lo <= hi
    ensures var v, w := Verdicts(lo), Verdicts(hi);
      (v.aaNormal ==> w.aaNormal) && (v.aaLarge ==> w.aaLarge)
      && (v.aaaNormal ==> w.aaaNormal) && (v.aaaLarge ==> w.aaaLarge)
      && Passed(v) <= Passed(w)
  {
  }

  /** The bands between the thresholds pass 0, 1, 3 and 4 badges, and each
      threshold belongs to the band above it. */
  lemma VerdictBands(ratio: real)
    ensures ratio < 3.0 ==> Passed(Verdicts(ratio)) == 0
    ensures 3.0 <= ratio < 4.5 ==> Verdicts(ratio) == WcagVerdicts(false, true, false, false)
    ensures 4.5 <= ratio < 7.0 ==> Verdicts(ratio) == WcagVerdicts(true, true, false, true)
    ensures 7.0 <= ratio ==> Passed(Verdicts(ratio)) == 4
  {
  }

  /** Text in the background's own colour fails every badge; luminances 1
      and 0, the extremes of the range, pass every badge. */
  lemma VerdictExtremes(hex: string, luminance: Rgb -> real)
    requires Decodable(hex)
    requires IsLuminanceFunction(luminance)
    ensures Passed(Verdicts(CalculateContrast(hex, hex, luminance))) == 0
    ensures Passed(Verdicts(ContrastRatio(1.0, 0.0))) == 4
  {
    RatioMaxIffFullRange(1.0, 0.0);
  }
}

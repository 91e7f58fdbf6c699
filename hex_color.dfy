/** The colour codec: hexadecimal digit strings, their numeric value, the
    `Number.prototype.toString(16)` / `padStart` encoding, and `hexToRgb`. */
module HexColor {
  import opened Bits

  /** The object `{r, g, b}` that `hexToRgb` returns. */
  datatype Rgb = Rgb(r: int, g: int, b: int)

  predicate IsByte(x: int) { 0 <= x <= 255 }

  predicate InGamut(c: Rgb) { IsByte(c.r) && IsByte(c.g) && IsByte(c.b) }

  /** The character class `[0-9a-fA-F]`. */
  predicate IsHexDigit(ch: char) { '0' <= ch <= '9' || 'a' <= ch <= 'f' || 'A' <= ch <= 'F' }

  predicate IsLowerHexDigit(ch: char) { '0' <= ch <= '9' || 'a' <= ch <= 'f' }

  predicate AllHex(s: string) { forall i :: 0 <= i < |s| ==> IsHexDigit(s[i]) }

  predicate AllLowerHex(s: string) { forall i :: 0 <= i < |s| ==> IsLowerHexDigit(s[i]) }

  /** The value of one hexadecimal digit, either case. */
  function DigitValue(ch: char): (v: nat)
    requires IsHexDigit(ch)
    ensures v < 16
  {
    if '0' <= ch <= '9' then ch as int - '0' as int
    else if 'a' <= ch <= 'f' then ch as int - 'a' as int + 10
    else ch as int - 'A' as int + 10
  }

  /** The lower-case digit `toString(16)` writes for a value below 16. */
  function LowerDigit(d: nat): (ch: char)
    requires d < 16
    ensures IsLowerHexDigit(ch) && DigitValue(ch) == d
  {
    if d < 10 then ('0' as int + d) as char else ('a' as int + d - 10) as char
  }

  /** Lower-cases the digits A-F and leaves every other character alone. */
  function LowerChar(ch: char): char
  {
    if 'A' <= ch <= 'F' then (ch as int - 'A' as int + 'a' as int) as char else ch
  }

  function LowerAll(s: string): (t: string)
    ensures |t| == |s| && forall i :: 0 <= i < |s| ==> t[i] == LowerChar(s[i])
  {
    seq(|s|, i requires 0 <= i < |s| => LowerChar(s[i]))
  }

  function Pow16(n: nat): (p: nat)
    ensures p >= 1
  {
    if n == 0 then 1 else 16 * Pow16(n - 1)
  }

  /** The number a string of hexadecimal digits denotes, as `Number('0x' + s)`
      and `parseInt(s, 16)` read it; the empty string denotes 0 here, the value
      the bitwise operators give to `Number('0x')`, which is NaN. */
  function HexValue(s: string): (n: nat)
    requires AllHex(s)
    ensures n < Pow16(|s|)
  {
    if s == [] then 0 else 16 * HexValue(s[..|s| - 1]) + DigitValue(s[|s| - 1])
  }

  /** `n.toString(16)` for a non-negative integer: lower-case digits, no
      leading zeros, "0" for zero. */
  function ToHex(n: nat): string
    decreases n
  {
    if n < 16 then [LowerDigit(n)] else ToHex(n / 16) + [LowerDigit(n % 16)]
  }

  /** `s.padStart(width, fill)` for a one-character `fill`. */
  function PadStart(s: string, width: nat, fill: char): string
  {
    if |s| >= width then s else seq(width - |s|, _ => fill) + s
  }

  /** The regular expressions `^#[0-9a-fA-F]{6}$` and `^#[0-9a-fA-F]{3}$`
      with which the colour input accepts a value. */
  predicate IsHexColorInput(s: string)
  {
    (|s| == 7 || |s| == 4) && s[0] == '#' && AllHex(s[1..])
  }

  /** A character JavaScript stores in one UTF-16 code unit. */
  predicate OneCodeUnit(ch: char)
  {
    ch as int < 0x1_0000
  }

  /** The inputs on which `hexToRgb` is modelled: strings of at most one
      character; strings whose first character takes two UTF-16 code units,
      so that `substring(1)` keeps half of it; and strings whose characters
      after a one-unit first character are three or six hexadecimal digits. */
  predicate Decodable(hex: string)
  {
    |hex| <= 1 || !OneCodeUnit(hex[0]) || ((|hex| == 4 || |hex| == 7) && AllHex(hex[1..]))
  }

  /** The digit string `hexToRgb` hands to `Number`: everything after the first
      character, with a three-digit form expanded by doubling each digit. */
  function ExpandedDigits(hex: string): (digits: string)
    ensures |hex| == 4 ==> |digits| == 6 && forall i :: 0 <= i < 6 ==> digits[i] == hex[1 + i / 2]
    ensures |hex| != 4 ==> digits == hex[if |hex| == 0 then 0 else 1..]
  {
    var c := if |hex| == 0 then [] else hex[1..];
    if |c| == 3 then [c[0], c[0], c[1], c[1], c[2], c[2]] else c
  }

  /** `((n >> 16) & 255, (n >> 8) & 255, n & 255)`. */
  function Unpack(n: nat): (c: Rgb)
    ensures InGamut(c)
  {
    assert Pow2(8) - 1 == 255;
    AndLowMask(Shr(n, 16), 8);
    AndLowMask(Shr(n, 8), 8);
    AndLowMask(n, 8);
    Rgb(BitAnd(Shr(n, 16), 255), BitAnd(Shr(n, 8), 255), BitAnd(n, 255))
  }

  /** The three masks keep the low byte of each shifted value. */
  lemma UnpackDivMod(n: nat)
    ensures Unpack(n) == Rgb((n / 0x1_0000) % 0x100, (n / 0x100) % 0x100, n % 0x100)
  {
    assert Pow2(16) == 0x1_0000 && Pow2(8) == 0x100;
    AndLowMask(Shr(n, 16), 8);
    AndLowMask(Shr(n, 8), 8);
    AndLowMask(n, 8);
  }

  /** `hexToRgb`: never null; a string with no digits decodes to black. */
  function HexToRgb(hex: string): (c: Rgb)
    requires Decodable(hex)
    ensures InGamut(c)
  {
    if |hex| > 0 && !OneCodeUnit(hex[0]) then
      // the digits handed to `Number` start with a lone surrogate: NaN, read as 0
      Unpack(0)
    else
      var digits := ExpandedDigits(hex);
      assert AllHex(digits);
      Unpack(if digits == [] then 0 else HexValue(digits))
  }

  /** Two hexadecimal digits read as one byte. */
  function ByteOf(hi: char, lo: char): nat
    requires IsHexDigit(hi) && IsHexDigit(lo)
  {
    16 * DigitValue(hi) + DigitValue(lo)
  }

  // ---------------------------------------------------------------------
  // Lemmas about the digit arithmetic
  // ---------------------------------------------------------------------

  /** The value of a concatenation: the digits of `a` are shifted by `|b|` places. */
  lemma {:induction false} HexValueConcat(a: string, b: string)
    requires AllHex(a) && AllHex(b)
    ensures AllHex(a + b) && HexValue(a + b) == HexValue(a) * Pow16(|b|) + HexValue(b)
  {
    if b == [] {
      assert a + b == a;
    } else {
      var b' := b[..|b| - 1];
      var d := DigitValue(b[|b| - 1]);
      assert (a + b)[..|a + b| - 1] == a + b';
      HexValueConcat(a, b');
      ShiftDigit(HexValue(a), Pow16(|b'|), HexValue(b'), d);
    }
  }

  lemma ShiftDigit(x: nat, p: nat, y: nat, d: nat)
    ensures 16 * (x * p + y) + d == x * (16 * p) + (16 * y + d)
  {
  }

  lemma {:induction false} ZerosValue(k: nat)
    ensures AllHex(seq(k, _ => '0')) && HexValue(seq(k, _ => '0')) == 0
  {
    if k > 0 {
      var z := seq(k, _ => '0');
      assert z[..k - 1] == seq(k - 1, _ => '0');
      ZerosValue(k - 1);
    }
  }

  /** `padStart` with '0' does not change the value of a digit string. */
  lemma PadZerosValue(s: string, width: nat)
    requires AllHex(s)
    ensures AllHex(PadStart(s, width, '0'))
    ensures HexValue(PadStart(s, width, '0')) == HexValue(s)
  {
    PadStartShape(s, width, '0');
    if |s| < width {
      ZerosValue(width - |s|);
      HexValueConcat(seq(width - |s|, _ => '0'), s);
    }
  }

  /** `n.toString(16)` is a non-empty string of lower-case digits that
      denotes `n`. */
  lemma {:induction false} ToHexValue(n: nat)
    ensures 1 <= |ToHex(n)| && AllLowerHex(ToHex(n)) && AllHex(ToHex(n))
    ensures HexValue(ToHex(n)) == n
    decreases n
  {
    if n >= 16 {
      var s := ToHex(n);
      ToHexValue(n / 16);
      assert s[..|s| - 1] == ToHex(n / 16);
    }
  }

  /** `padStart` keeps the string at the end and fills in front of it. */
  lemma PadStartShape(s: string, width: nat, fill: char)
    ensures var t := PadStart(s, width, fill);
      |t| == (if |s| >= width then |s| else width)
      && t[|t| - |s|..] == s
      && forall i :: 0 <= i < |t| - |s| ==> t[i] == fill
  {
  }

  /** `n.toString(16)` has at most `k` digits when `n < 16^k`. */
  lemma {:induction false} ToHexLength(n: nat, k: nat)
    requires 1 <= k && n < Pow16(k)
    ensures |ToHex(n)| <= k
  {
    if n >= 16 {
      assert k >= 2;
      ToHexLength(n / 16, k - 1);
    }
  }

  /** Lower-casing a digit string keeps its value. */
  lemma {:induction false} LowerAllValue(s: string)
    requires AllHex(s)
    ensures AllLowerHex(LowerAll(s)) && AllHex(LowerAll(s))
    ensures HexValue(LowerAll(s)) == HexValue(s)
  {
    if s != [] {
      assert LowerAll(s)[..|s| - 1] == LowerAll(s[..|s| - 1]);
      LowerAllValue(s[..|s| - 1]);
    }
  }

  /** Two lower-case digit strings of one length with one value are equal. */
  lemma {:induction false} LowerHexInjective(s: string, t: string)
    requires |s| == |t| && AllLowerHex(s) && AllLowerHex(t)
    requires HexValue(s) == HexValue(t)
    ensures s == t
  {
    if s != [] {
      var n := |s| - 1;
      var x, y := DigitValue(s[n]), DigitValue(t[n]);
      ModUnique(HexValue(s), 16, HexValue(s[..n]), x);
      ModUnique(HexValue(t), 16, HexValue(t[..n]), y);
      LowerDigitInjective(s[n], t[n]);
      assert AllLowerHex(s[..n]) && AllLowerHex(t[..n]);
      LowerHexInjective(s[..n], t[..n]);
      assert s == s[..n] + [s[n]] && t == t[..n] + [t[n]];
    }
  }

  lemma LowerDigitInjective(a: char, b: char)
    requires IsLowerHexDigit(a) && IsLowerHexDigit(b) && DigitValue(a) == DigitValue(b)
    ensures a == b
  {
  }

  /** Six digits split into the three bytes they spell. */
  lemma SixDigitsValue(d: string)
    requires |d| == 6 && AllHex(d)
    ensures HexValue(d) == 0x1_0000 * ByteOf(d[0], d[1]) + 0x100 * ByteOf(d[2], d[3]) + ByteOf(d[4], d[5])
  {
    assert d[..5][..4] == d[..4] && d[..4][..3] == d[..3] && d[..3][..2] == d[..2];
    assert d[..2][..1] == d[..1] && d[..1][..0] == [];
    assert HexValue(d[..1]) == DigitValue(d[0]);
    assert HexValue(d[..2]) == ByteOf(d[0], d[1]);
    assert HexValue(d[..4]) == 0x100 * ByteOf(d[0], d[1]) + ByteOf(d[2], d[3]);
  }

  /** `Unpack` takes a packed 24-bit value apart into its three bytes. */
  lemma UnpackPacked(x: nat, y: nat, z: nat)
    requires x < 256 && y < 256 && z < 256
    ensures Unpack(0x1_0000 * x + 0x100 * y + z) == Rgb(x, y, z)
  {
    UnpackDivMod(0x1_0000 * x + 0x100 * y + z);
    PackedBytes(x, y, z);
  }

  lemma PackedBytes(x: nat, y: nat, z: nat)
    requires x < 256 && y < 256 && z < 256
    ensures var n := 0x1_0000 * x + 0x100 * y + z;
      (n / 0x1_0000) % 0x100 == x && (n / 0x100) % 0x100 == y && n % 0x100 == z
  {
    var n := 0x1_0000 * x + 0x100 * y + z;
    ModUnique(n, 0x1_0000, x, 0x100 * y + z);
    ModUnique(n, 0x100, 0x100 * x + y, z);
    ModUnique(0x100 * x + y, 0x100, x, y);
    ModUnique(x, 0x100, 0, x);
  }

  /** Packing the three unpacked bytes again gives back a 24-bit value. */
  lemma RepackUnpack(n: nat)
    requires n < 0x100_0000
    ensures 0x1_0000 * Unpack(n).r + 0x100 * Unpack(n).g + Unpack(n).b == n
  {
    UnpackDivMod(n);
    ByteSplit(n);
  }

  lemma ByteSplit(n: nat)
    requires n < 0x100_0000
    ensures 0x1_0000 * ((n / 0x1_0000) % 0x100) + 0x100 * ((n / 0x100) % 0x100) + n % 0x100 == n
  {
    var q, m := n / 0x1_0000, n % 0x1_0000;
    assert q < 0x100;
    ModUnique(n, 0x100, 0x100 * q + m / 0x100, m % 0x100);
    ModUnique(0x100 * q + m / 0x100, 0x100, q, m / 0x100);
  }

  // ---------------------------------------------------------------------
  // Properties of hexToRgb
  // ---------------------------------------------------------------------

  /** The colour input's pattern only admits strings `hexToRgb` decodes. */
  lemma HexColorInputDecodable(s: string)
    requires IsHexColorInput(s)
    ensures Decodable(s) && |ExpandedDigits(s)| == 6
  {
  }

  /** `#RRGGBB` decodes to its three two-digit bytes, in order. */
  lemma DecodeSixDigits(hex: string)
    requires |hex| == 7 && OneCodeUnit(hex[0]) && AllHex(hex[1..])
    ensures Decodable(hex)
    ensures HexToRgb(hex) == Rgb(ByteOf(hex[1], hex[2]), ByteOf(hex[3], hex[4]), ByteOf(hex[5], hex[6]))
  {
    var d := hex[1..];
    SixDigitsValue(d);
    UnpackPacked(ByteOf(d[0], d[1]), ByteOf(d[2], d[3]), ByteOf(d[4], d[5]));
  }

  /** `#RGB` decodes as `#RRGGBB`: each digit read twice, so each channel is
      17 times its digit. */
  lemma DecodeThreeDigits(hex: string)
    requires |hex| == 4 && OneCodeUnit(hex[0]) && AllHex(hex[1..])
    ensures Decodable(hex)
    ensures var long := ['#', hex[1], hex[1], hex[2], hex[2], hex[3], hex[3]];
      Decodable(long) && HexToRgb(hex) == HexToRgb(long)
    ensures HexToRgb(hex) == Rgb(17 * DigitValue(hex[1]), 17 * DigitValue(hex[2]), 17 * DigitValue(hex[3]))
  {
    var long := ['#', hex[1], hex[1], hex[2], hex[2], hex[3], hex[3]];
    assert ExpandedDigits(hex) == ExpandedDigits(long);
    DecodeSixDigits(long);
  }

  /** Hexadecimal digits are read case-insensitively. */
  lemma DecodeIgnoresCase(hex: string)
    requires Decodable(hex)
    ensures Decodable(LowerAll(hex)) && HexToRgb(LowerAll(hex)) == HexToRgb(hex)
  {
    if |hex| > 1 && OneCodeUnit(hex[0]) {
      assert LowerAll(hex)[1..] == LowerAll(hex[1..]);
      LowerAllValue(hex[1..]);
      assert ExpandedDigits(LowerAll(hex)) == LowerAll(ExpandedDigits(hex));
      LowerAllValue(ExpandedDigits(hex));
    }
  }

  /** `""` and `"#"` (any one-character string) decode to black rather than
      to null, so a `!rgb` test on the result never succeeds. */
  lemma DecodeNoDigits(hex: string)
    requires |hex| <= 1
    ensures Decodable(hex) && HexToRgb(hex) == Rgb(0, 0, 0)
  {
  }

  /** A first character outside the Basic Multilingual Plane leaves half of
      itself in the digits, so the string decodes to black whatever follows:
      `"\U{1F600}abc"` is black, not `#aabbcc`. */
  lemma DecodeTwoUnitFirst(hex: string)
    requires |hex| > 0 && !OneCodeUnit(hex[0])
    ensures Decodable(hex) && HexToRgb(hex) == Rgb(0, 0, 0)
  {
    UnpackDivMod(0);
  }

  lemma DecodeTwoUnitExample()
    ensures Decodable("\U{1F600}abc") && HexToRgb("\U{1F600}abc") == Rgb(0, 0, 0)
    ensures Decodable("#abc") && HexToRgb("#abc") == Rgb(0xaa, 0xbb, 0xcc)
  {
    DecodeTwoUnitFirst("\U{1F600}abc");
    DecodeThreeDigits("#abc");
  }
}

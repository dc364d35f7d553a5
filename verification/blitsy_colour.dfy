/**
 * Blitsy's colour conversions between "#rrggbb" strings and the 32-bit pixel
 * values of a canvas. A pixel read through a Uint32Array is little-endian
 * RGBA, so the number holds alpha in its top byte, then blue, green and red
 * in its lowest byte.
 */
module BlitsyColour {
  import opened Common
  import opened JsNumbers
  import opened JsStrings

  /** The pixel value with the given bytes, red lowest. */
  function Pixel(r: nat, g: nat, b: nat, a: nat): (p: nat)
    requires r < 256 && g < 256 && b < 256 && a < 256
    ensures p < TwoTo32
  {
    a * TwoTo24 + b * 0x1_0000 + g * 0x100 + r
  }

  /** The text after a leading '#', or all of it. */
  function StripHash(hex: string): (h: string)
    ensures |hex| > 0 && hex[0] == '#' ==> h == hex[1..]
    ensures (|hex| == 0 || hex[0] != '#') ==> h == hex
  {
    if CharAt(hex, 0) == "#" then Substring(hex, 1, |hex|) else hex
  }

  /** The three two-character groups in reverse order: "rrggbb" becomes "bbggrr" and back. */
  function SwapPairs(h: string): string
  {
    Substr(h, 4, 2) + Substr(h, 2, 2) + Substr(h, 0, 2)
  }

  /** The alpha hexToNumber uses: the one given, else two digits after eight, else 255. */
  function AlphaOf(h: string, alpha: Option<Num>): (a: Num)
    ensures alpha.Some? ==> a == alpha.value
    ensures alpha.None? && |h| != 8 ==> a == Int(255)
  {
    if alpha.Some? then alpha.value
    else if |h| == 8 then ParseInt16(Substr(h, 6, 2))
    else Int(255)
  }

  /**
   * hexToNumber: the colour "#rrggbb" (the # optional) as a pixel value. The
   * alpha byte is the one given, else the digits after the colour when there
   * are eight, else 255. Digits parseInt cannot read make the colour bytes 0.
   */
  function HexToNumber(hex: string, alpha: Option<Num>): (p: int)
    ensures 0 <= p < TwoTo32
  {
    PackHex(StripHash(hex), alpha)
  }

  /** hexToNumber after the '#' is gone: the swapped groups parsed, or-ed with the alpha shifted to the top byte. */
  function PackHex(h: string, alpha: Option<Num>): (p: int)
    ensures 0 <= p < TwoTo32
  {
    var v := BitOr(NumInt32(ParseInt16(SwapPairs(h))), Shl(NumInt32(AlphaOf(h, alpha)), 24));
    UShrZero(v);
    UShr(v, 0)
  }

  /** numberToHex: the colour bytes of a pixel value as "rrggbb" after the prefix; alpha is dropped. */
  function NumberToHex(number: int, prefix: string): string
  {
    var n := UShr(BitOr(number, 0xff00_0000), 0);
    prefix + SwapPairs(Substring(ToString16(n), 2, 8))
  }

  /** rgbToHex: the packed sum's hexadecimal text, last six digits, after "#". */
  function RgbToHex(r: int, g: int, b: int): string
  {
    var packed := 0xFF00_0000 + Shl(r, 16) + Shl(g, 8) + Shl(b, 0);
    var text := NumberToString16(packed);
    "#" + Substr(text, -6, |text|)
  }

  // ---------------------------------------------------------------------------
  // Helpers

  lemma {:induction false} HexValueAppend(s: string, t: string)
    ensures HexValue(s + t) == HexValue(s) * Pow16(|t|) + HexValue(t)
    decreases |t|
  {
    if t == [] {
      assert s + t == s;
    } else {
      var t' := t[..|t| - 1];
      var d := HexDigitValue(t[|t| - 1]);
      assert (s + t)[..|s + t| - 1] == s + t';
      assert HexValue(s + t) == HexValue(s + t') * 16 + d;
      assert HexValue(t) == HexValue(t') * 16 + d;
      HexValueAppend(s, t');
      Mul16(HexValue(s), |t|);
    }
  }

  /** Two lower-case digits for a byte; they read back as the byte. */
  lemma Digits2(v: nat)
    requires v < 256
    ensures HexValue(Digits(v, 2)) == v
  {
    assert Pow16(2) == 256;
    DigitsValue(v, 2);
  }

  /** The value of three two-digit groups. */
  lemma HexValue222(x: string, y: string, z: string)
    requires |x| == 2 && |y| == 2 && |z| == 2 && AllHex(x) && AllHex(y) && AllHex(z)
    ensures AllHex(x + y + z)
    ensures HexValue(x + y + z) == HexValue(x) * 0x1_0000 + HexValue(y) * 0x100 + HexValue(z)
  {
    var hx, hy, hz := HexValue(x), HexValue(y), HexValue(z);
    assert Pow16(|y|) == 256 && Pow16(|z|) == 256;
    HexValueAppend(x, y);
    assert HexValue(x + y) == hx * 256 + hy;
    HexValueAppend(x + y, z);
    assert HexValue(x + y + z) == (hx * 256 + hy) * 256 + hz;
  }

  /** A pixel value's four bytes. */
  lemma Unpack(u: int) returns (r: nat, g: nat, b: nat, a: nat)
    requires 0 <= u < TwoTo32
    ensures r < 256 && g < 256 && b < 256 && a < 256 && u == Pixel(r, g, b, a)
  {
    var q1 := u / 256;
    var q2 := q1 / 256;
    r, g, b, a := u % 256, q1 % 256, q2 % 256, q2 / 256;
  }

  /** The three two-character groups of six characters. */
  lemma SixSlices(x: string, y: string, z: string)
    requires |x| == 2 && |y| == 2 && |z| == 2
    ensures Substr(x + y + z, 0, 2) == x && Substr(x + y + z, 2, 2) == y && Substr(x + y + z, 4, 2) == z
  {
    var h := x + y + z;
    assert h[0..2] == x && h[2..4] == y && h[4..6] == z;
  }

  lemma SwapSix(x: string, y: string, z: string)
    requires |x| == 2 && |y| == 2 && |z| == 2
    ensures SwapPairs(x + y + z) == z + y + x
  {
    SixSlices(x, y, z);
  }

  /** Six digits of a number below 2^24 are its three bytes, high first. */
  lemma Digits6(n: nat, r: nat, g: nat, b: nat)
    requires r < 256 && g < 256 && b < 256 && n == b * 0x1_0000 + g * 0x100 + r
    ensures Digits(n, 6) == Digits(b, 2) + Digits(g, 2) + Digits(r, 2)
  {
    var m := b * 0x100 + g;
    assert Pow16(2) == 256;
    DigitsSplit(n, m, r, 4, 2);
    DigitsSplit(m, b, g, 2, 2);
  }

  /** Shifting a byte left by 24 bits stays below 2^32. */
  lemma ShiftAlpha(a: nat)
    requires a < 256
    ensures Shift(a, 24) == a * TwoTo24 && a * TwoTo24 < TwoTo32
  {
    ShiftMul(a, 24);
    Pow2Values();
    assert a * TwoTo24 <= 255 * TwoTo24;
  }

  /** `a << 24` of a byte, read unsigned. */
  lemma ShlAlpha(a: int)
    requires 0 <= a < 256
    ensures Uint32(Shl(a, 24)) == a * TwoTo24
  {
    ShiftAlpha(a);
    assert Shl(a, 24) == Int32(Shift(a, 24));
  }

  /** `x | (a << 24)` for a colour below 2^24 and an alpha byte, read unsigned. */
  lemma OrAlpha(x: int, a: int)
    requires 0 <= x < TwoTo24 && 0 <= a < 256
    ensures UShr(BitOr(x, Shl(a, 24)), 0) == a * TwoTo24 + x
  {
    ShiftAlpha(a);
    var s := Shift(a, 24);
    ShlAlpha(a);
    Pow2Values();
    OrDisjoint(x, a, 24);
    var b := BitOr(x, Shl(a, 24));
    assert b == Int32(x + s);
    UShrInt32(x + s);
    assert UShr(b, 0) == x + s;
  }

  /** `>>> 0` reads a signed 32-bit value back as the unsigned one. */
  lemma UShrInt32(x: int)
    requires 0 <= x < TwoTo32
    ensures UShr(Int32(x), 0) == x
  {
  }

  /** `n | 0xff000000`, read unsigned, keeps the colour bytes and sets alpha to 255. */
  lemma OrOpaque(number: int, r: nat, g: nat, b: nat, a: nat)
    requires r < 256 && g < 256 && b < 256 && a < 256 && Uint32(number) == Pixel(r, g, b, a)
    ensures UShr(BitOr(number, 0xff00_0000), 0) == Pixel(r, g, b, 255)
  {
    var u := Uint32(number);
    var lo := b * 0x1_0000 + g * 0x100 + r;
    Pow2Values();
    ShiftAlpha(a);
    ShiftAlpha(255);
    assert u == lo + Shift(a, 24);
    assert 0xff00_0000 == 0 + Shift(255, 24);
    OrSplit(u, 0xff00_0000, lo, a, 0, 255, 24);
    OrZero(lo);
    OrOnes(a, 8);
    assert Or(u, 0xff00_0000) == Pixel(r, g, b, 255);
    assert Uint32(0xff00_0000) == 0xff00_0000;
    UShrInt32(Or(u, 0xff00_0000));
  }

  lemma ToString16Opaque(n: nat, lo: nat)
    requires lo < TwoTo24 && n == lo + 0xff00_0000
    ensures ToString16(n) == "ff" + Digits(lo, 6)
  {
    assert Pow16(6) == TwoTo24;
    ToString16Split(n, 0xff, lo, 6);
    assert ToString16(0xff) == "ff";
  }

  /** parseInt of the swapped groups reads blue as the high byte and red as the low byte. */
  lemma ParseSwapped(h: string, x: string, y: string, z: string, v: int)
    requires |x| == 2 && |y| == 2 && |z| == 2 && AllHex(x) && AllHex(y) && AllHex(z) && h == x + y + z
    requires v == HexValue(z) * 0x1_0000 + HexValue(y) * 0x100 + HexValue(x)
    ensures HexValue(x) < 256 && HexValue(y) < 256 && HexValue(z) < 256
    ensures ParseInt16(SwapPairs(h)) == Int(v)
  {
    assert Pow16(2) == 256;
    HexValueBound(x);
    HexValueBound(y);
    HexValueBound(z);
    var w := z + y + x;
    SwapSix(x, y, z);
    HexValue222(z, y, x);
    ParseHexDigits(w);
    ParseValue(SwapPairs(h), w, v);
  }

  lemma ParseValue(s: string, w: string, v: int)
    requires s == w && ParseInt16(w) == Int(HexValue(w)) && HexValue(w) == v
    ensures ParseInt16(s) == Int(v)
  {
  }

  /** PackHex from what it parses: the colour number and the alpha byte. */
  lemma PackHexParts(h: string, alpha: Option<Num>, v: int, a: int)
    requires 0 <= v < TwoTo24 && 0 <= a < 256
    requires ParseInt16(SwapPairs(h)) == Int(v) && AlphaOf(h, alpha) == Int(a)
    ensures PackHex(h, alpha) == a * TwoTo24 + v
  {
    assert NumInt32(ParseInt16(SwapPairs(h))) == v;
    assert NumInt32(AlphaOf(h, alpha)) == a;
    OrAlpha(v, a);
  }

  /** The '#' is dropped when present, and text starting with a digit is kept. */
  lemma StripHashDigits(hex: string, h: string)
    requires |h| > 0 && IsHexDigit(h[0]) && hex == "#" + h
    ensures StripHash(hex) == h && StripHash(h) == h
  {
    assert hex[1..] == h;
  }

  /** hexToNumber is PackHex of the text after the '#'. */
  lemma HexToNumberPack(hex: string, h: string, alpha: Option<Num>, p: int)
    requires StripHash(hex) == h && PackHex(h, alpha) == p
    ensures HexToNumber(hex, alpha) == p
  {
  }

  /** What hexToNumber reads from six hex digits of either case, with or without the '#'. */
  lemma HexToNumberDigits(x: string, y: string, z: string, alpha: Option<Num>, a: nat)
    requires |x| == 2 && |y| == 2 && |z| == 2 && AllHex(x) && AllHex(y) && AllHex(z) && a < 256
    requires alpha == Some(Int(a)) || (alpha == None && a == 255)
    ensures HexValue(x) < 256 && HexValue(y) < 256 && HexValue(z) < 256
    ensures HexToNumber("#" + x + y + z, alpha) == Pixel(HexValue(x), HexValue(y), HexValue(z), a)
    ensures HexToNumber(x + y + z, alpha) == Pixel(HexValue(x), HexValue(y), HexValue(z), a)
  {
    var h := x + y + z;
    var p := PackDigits(x, y, z, alpha, a);
    HashJoin3(x, y, z);
    StripHashDigits("#" + h, h);
    HexToNumberPack("#" + h, h, alpha, p);
    HexToNumberPack(h, h, alpha, p);
  }

  /** The packing step of hexToNumber on six hex digits. */
  lemma PackDigits(x: string, y: string, z: string, alpha: Option<Num>, a: nat) returns (p: int)
    requires |x| == 2 && |y| == 2 && |z| == 2 && AllHex(x) && AllHex(y) && AllHex(z) && a < 256
    requires alpha == Some(Int(a)) || (alpha == None && a == 255)
    ensures HexValue(x) < 256 && HexValue(y) < 256 && HexValue(z) < 256
    ensures p == Pixel(HexValue(x), HexValue(y), HexValue(z), a) && PackHex(x + y + z, alpha) == p
  {
    var h := x + y + z;
    var v := HexValue(z) * 0x1_0000 + HexValue(y) * 0x100 + HexValue(x);
    ParseSwapped(h, x, y, z, v);
    assert |h| == 6;
    PackHexParts(h, alpha, v, a);
    p := a * TwoTo24 + v;
  }

  // ---------------------------------------------------------------------------
  // Properties

  /** numberToHex writes the red, green and blue bytes of the pixel value, in that order. */
  lemma NumberToHexBytes(number: int, prefix: string, r: nat, g: nat, b: nat, a: nat)
    requires r < 256 && g < 256 && b < 256 && a < 256 && Uint32(number) == Pixel(r, g, b, a)
    ensures NumberToHex(number, prefix) == prefix + Digits(r, 2) + Digits(g, 2) + Digits(b, 2)
  {
    OrOpaque(number, r, g, b, a);
    var lo := b * 0x1_0000 + g * 0x100 + r;
    var n := UShr(BitOr(number, 0xff00_0000), 0);
    ToString16Opaque(n, lo);
    Digits6(lo, r, g, b);
    NumberToHexText(number, prefix, n, Digits(b, 2), Digits(g, 2), Digits(r, 2));
  }

  /** numberToHex of a number whose opaque digits are "ff" and three groups: the groups swapped. */
  lemma NumberToHexText(number: int, prefix: string, n: nat, x: string, y: string, z: string)
    requires |x| == 2 && |y| == 2 && |z| == 2
    requires UShr(BitOr(number, 0xff00_0000), 0) == n && ToString16(n) == "ff" + (x + y + z)
    ensures NumberToHex(number, prefix) == prefix + z + y + x
  {
    assert ("ff" + (x + y + z))[2..8] == x + y + z;
    SwapSix(x, y, z);
  }

  /** hexToNumber of "#rrggbb", with alpha absent or a byte, is the pixel with those bytes. */
  lemma HexToNumberBytes(r: nat, g: nat, b: nat, alpha: Option<Num>, a: nat)
    requires r < 256 && g < 256 && b < 256 && a < 256
    requires alpha == Some(Int(a)) || (alpha == None && a == 255)
    ensures HexToNumber("#" + Digits(r, 2) + Digits(g, 2) + Digits(b, 2), alpha) == Pixel(r, g, b, a)
  {
    Digits2(r);
    Digits2(g);
    Digits2(b);
    HexToNumberDigits(Digits(r, 2), Digits(g, 2), Digits(b, 2), alpha, a);
  }

  /** Writing a pixel value and reading it back keeps its colour bytes and makes it opaque. */
  lemma NumberHexRoundTrip(number: int, r: nat, g: nat, b: nat, a: nat)
    requires r < 256 && g < 256 && b < 256 && a < 256 && Uint32(number) == Pixel(r, g, b, a)
    ensures HexToNumber(NumberToHex(number, "#"), None) == Pixel(r, g, b, 255)
  {
    NumberToHexBytes(number, "#", r, g, b, a);
    HexToNumberBytes(r, g, b, None, 255);
  }

  /** Six lower-case digits as three two-digit groups, each the digits of its own value. */
  lemma LowerSix(s: string) returns (x: string, y: string, z: string)
    requires |s| == 6 && AllLowerHex(s)
    ensures s == x + y + z && |x| == 2 && |y| == 2 && |z| == 2
    ensures AllHex(x) && AllHex(y) && AllHex(z)
    ensures Digits(HexValue(x), 2) == x && Digits(HexValue(y), 2) == y && Digits(HexValue(z), 2) == z
  {
    x, y, z := s[..2], s[2..4], s[4..];
    assert s == x + y + z;
    ValueDigits(x);
    ValueDigits(y);
    ValueDigits(z);
  }

  /** Reading six lower-case digits and writing them back gives the same text. */
  lemma HexNumberRoundTrip(s: string)
    requires |s| == 6 && AllLowerHex(s)
    ensures NumberToHex(HexToNumber("#" + s, None), "#") == "#" + s
  {
    var x, y, z := LowerSix(s);
    assert "#" + s == "#" + x + y + z;
    HexToNumberDigits(x, y, z, None, 255);
    var r, g, b := HexValue(x), HexValue(y), HexValue(z);
    NumberToHexBytes(Pixel(r, g, b, 255), "#", r, g, b, 255);
  }

  /** The groups of eight characters, two at a time. */
  lemma SlicesEight(x: string, y: string, z: string, t: string)
    requires |x| == 2 && |y| == 2 && |z| == 2 && |t| == 2
    ensures var h := x + y + z + t; h[..6] == x + y + z && h[6..8] == t
    ensures SwapPairs(x + y + z + t) == SwapPairs(x + y + z)
  {
    var h := x + y + z + t;
    assert h == (x + y + z) + t;
    SwapSix(x, y, z);
    assert Substr(h, 4, 2) == z && Substr(h, 2, 2) == y && Substr(h, 0, 2) == x;
  }

  /** Eight characters and no alpha given: the last two are parsed for the alpha. */
  lemma AlphaEight(h: string, t: string)
    requires |h| == 8 && h[6..8] == t && |t| == 2 && AllHex(t)
    ensures AlphaOf(h, None) == Int(HexValue(t))
  {
    ParseHexDigits(t);
  }

  lemma HashJoin3(x: string, y: string, z: string)
    ensures "#" + x + y + z == "#" + (x + y + z)
  {
  }

  lemma HashJoin(x: string, y: string, z: string, t: string)
    ensures "#" + x + y + z + t == "#" + (x + y + z + t) && "#" + x + y + z == "#" + (x + y + z)
  {
  }

  /** PackHex depends only on the swapped groups and the alpha. */
  lemma PackSame(h: string, k: string, alpha: Option<Num>, beta: Option<Num>)
    requires SwapPairs(h) == SwapPairs(k) && AlphaOf(h, alpha) == AlphaOf(k, beta)
    ensures PackHex(h, alpha) == PackHex(k, beta)
  {
  }

  /** With eight digits and no alpha given, the last two digits are the alpha byte. */
  lemma HexToNumberEightDigits(x: string, y: string, z: string, t: string)
    requires |x| == 2 && |y| == 2 && |z| == 2 && |t| == 2
    requires AllHex(x) && AllHex(y) && AllHex(z) && AllHex(t)
    ensures HexToNumber("#" + x + y + z + t, None) == HexToNumber("#" + x + y + z, Some(Int(HexValue(t))))
  {
    var h, k := x + y + z + t, x + y + z;
    HashJoin(x, y, z, t);
    assert h[0] == x[0] && k[0] == x[0];
    StripHashDigits("#" + h, h);
    StripHashDigits("#" + k, k);
    SlicesEight(x, y, z, t);
    AlphaEight(h, t);
    PackSame(h, k, None, Some(Int(HexValue(t))));
    HexToNumberPack("#" + h, h, None, PackHex(h, None));
    HexToNumberPack("#" + k, k, Some(Int(HexValue(t))), PackHex(k, Some(Int(HexValue(t)))));
  }

  lemma ByteTimes(c: nat, p: nat)
    requires c < 256 && p <= 0x1_0000
    ensures c * p < TwoTo24
  {
    assert c * p <= 255 * p;
  }

  /** A byte shifted left by n bits, for 2^n at most 2^16. */
  lemma ShlByte(c: nat, n: nat, p: nat)
    requires c < 256 && p == Pow2(n) && p <= 0x1_0000
    ensures Shl(c, n) == c * p
  {
    ShiftMul(c, n);
    ByteTimes(c, p);
    assert n < 32 by {
      if n >= 32 {
        Pow2Values();
        assert Pow2(17) == 2 * Pow2(16);
        Pow2Grows(17, n);
      }
    }
  }

  /** The three shifted bytes rgbToHex adds up. */
  lemma ShlBytes(r: nat, g: nat, b: nat)
    requires r < 256 && g < 256 && b < 256
    ensures Shl(r, 16) == r * 0x1_0000 && Shl(g, 8) == g * 0x100 && Shl(b, 0) == b
  {
    Pow2Values();
    ShlByte(r, 16, 0x1_0000);
    ShlByte(g, 8, 0x100);
    ShlByte(b, 0, 1);
  }

  /** The last six characters of "ff" and six digits. */
  lemma LastSix(text: string, d: string)
    requires |d| == 6 && text == "ff" + d
    ensures Substr(text, -6, |text|) == d
  {
    assert text[2..] == d;
  }

  /** rgbToHex writes each byte as two digits, red first. */
  lemma RgbToHexBytes(r: nat, g: nat, b: nat)
    requires r < 256 && g < 256 && b < 256
    ensures RgbToHex(r, g, b) == "#" + Digits(r, 2) + Digits(g, 2) + Digits(b, 2)
  {
    ShlBytes(r, g, b);
    var lo := r * 0x1_0000 + g * 0x100 + b;
    var n := 0xFF00_0000 + Shl(r, 16) + Shl(g, 8) + Shl(b, 0);
    ToString16Opaque(n, lo);
    Digits6(lo, b, g, r);
    LastSix(NumberToString16(n), Digits(lo, 6));
  }

  /** rgbToHex and hexToNumber agree: the text it writes reads back as the opaque pixel. */
  lemma RgbToHexNumber(r: nat, g: nat, b: nat)
    requires r < 256 && g < 256 && b < 256
    ensures HexToNumber(RgbToHex(r, g, b), None) == Pixel(r, g, b, 255)
  {
    RgbToHexBytes(r, g, b);
    HexToNumberBytes(r, g, b, None, 255);
  }

  /** Two digits that read as a byte. */
  lemma ByteDigits(x: string, v: nat)
    requires (x == "00" && v == 0) || (x == "FF" && v == 255)
    ensures |x| == 2 && AllHex(x) && HexValue(x) == v
  {
    var init := x[..1];
    assert init[..0] == [];
    assert HexValue(init) == HexDigitValue(x[0]);
    assert HexValue(x) == HexValue(init) * 16 + HexDigitValue(x[1]);
  }

  /** The palette entries blitsy names: black with alpha 0, and opaque white (upper-case digits). */
  lemma NamedColours(black: string, white: string)
    requires black == "#000000" && white == "#FFFFFF"
    ensures HexToNumber(black, Some(Int(0))) == 0
    ensures HexToNumber(white, Some(Int(255))) == 0xFFFF_FFFF
  {
    var zero, full := "00", "FF";
    assert black == "#" + zero + zero + zero;
    assert white == "#" + full + full + full;
    ByteDigits(zero, 0);
    ByteDigits(full, 255);
    HexToNumberDigits(zero, zero, zero, Some(Int(0)), 0);
    HexToNumberDigits(full, full, full, Some(Int(255)), 255);
  }
}

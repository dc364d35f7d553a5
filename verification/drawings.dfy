/**
 * The drawing editor's colour helpers and the colour quantisation applied to
 * imported images: every pixel is either cleared (when nearly transparent) or
 * replaced by the palette colour closest to it, with the choice for each
 * masked colour memoised in a map shared by all imported drawings.
 */
module Drawings {
  import opened Common
  import opened JsNumbers
  import opened JsStrings
  import opened BlitsyColour

  /** The {r, g, b, uint32} record the helpers build; hexToRGB's components may be NaN. */
  datatype RGB = RGB(r: Num, g: Num, b: Num, uint32: int)

  /** colordiff.closest: the palette entry nearest a colour (deterministic, otherwise unknown). */
  type Closest = (RGB, seq<RGB>) -> RGB

  predicate IsByte(n: Num)
  {
    n.Int? && 0 <= n.value < 256
  }

  /** uint32ToRGB: bytes 0, 1 and 2 of the value as r, g and b; the value itself is kept. */
  function Uint32ToRGB(uint32: int): (c: RGB)
    ensures IsByte(c.r) && IsByte(c.g) && IsByte(c.b) && c.uint32 == uint32
  {
    var r := BitAnd(UShr(uint32, 0), 0xFF);
    var g := BitAnd(UShr(uint32, 8), 0xFF);
    var b := BitAnd(UShr(uint32, 16), 0xFF);
    ByteMask(UShr(uint32, 0));
    ByteMask(UShr(uint32, 8));
    ByteMask(UShr(uint32, 16));
    RGB(Int(r), Int(g), Int(b), uint32)
  }

  /** hexToRGB: the '#' dropped, then digit pairs 0-1, 2-3 and 4-5 parsed as r, g and b. */
  function HexToRGB(hex: string): (c: RGB)
    ensures 0 <= c.uint32 < TwoTo32
  {
    var h := StripHash(hex);
    RGB(ParseInt16(Substr(h, 0, 2)), ParseInt16(Substr(h, 2, 2)), ParseInt16(Substr(h, 4, 2)), HexToNumber(h, None))
  }

  /** RGBToNumber: `r | g << 8 | b << 16 | 0xFF << 24`, a signed 32-bit value. */
  function RGBToNumber(c: RGB): int
  {
    BitOr(LowBits(c), Shl(0xFF, 24))
  }

  /** `r | g << 8 | b << 16`, the part of RGBToNumber below the alpha byte. */
  function LowBits(c: RGB): int
  {
    BitOr(BitOr(NumInt32(c.r), Shl(NumInt32(c.g), 8)), Shl(NumInt32(c.b), 16))
  }

  // ---------------------------------------------------------------------------
  // Byte-level helpers

  /** `x & 0xFF` is a byte. */
  lemma ByteMask(x: int)
    ensures 0 <= BitAnd(x, 0xFF) < 256
  {
    AndAtMost(Uint32(x), 0xFF);
  }

  /** `x & 0xFF` of a number whose low byte is lo. */
  lemma LowByte(x: nat, lo: nat, hi: nat)
    requires lo < 256 && x == lo + 256 * hi && x < TwoTo32
    ensures BitAnd(x, 0xFF) == lo
  {
    Pow2Values();
    ShiftMul(hi, 8);
    AndLowMask(x, lo, hi, 8);
  }

  /** `x | (c << n)` for a byte c and a number x below 2^n, with 2^n at most 2^16. */
  lemma OrByte(x: nat, c: nat, n: nat, p: nat)
    requires c < 256 && p == Pow2(n) && p <= 0x1_0000 && x < p
    ensures BitOr(x, Shl(c, n)) == x + c * p
  {
    ShlByte(c, n, p);
    ByteTimes(c, p);
    ShiftMul(c, n);
    OrDisjoint(x, c, n);
  }

  /** `r | g << 8 | b << 16` of three bytes. */
  lemma LowBitsBytes(r: nat, g: nat, b: nat, u: int)
    requires r < 256 && g < 256 && b < 256
    ensures LowBits(RGB(Int(r), Int(g), Int(b), u)) == b * 0x1_0000 + g * 0x100 + r
  {
    Pow2Values();
    assert NumInt32(Int(r)) == r && NumInt32(Int(g)) == g && NumInt32(Int(b)) == b;
    var rg := r + g * 0x100;
    OrByte(r, g, 8, 0x100);
    assert BitOr(r, Shl(g, 8)) == rg;
    OrByte(rg, b, 16, 0x1_0000);
  }

  /** The low 24 bits of a pixel value are its colour bytes. */
  lemma PixelLow(r: nat, g: nat, b: nat, a: nat)
    requires r < 256 && g < 256 && b < 256 && a < 256
    ensures Pixel(r, g, b, a) % TwoTo24 == b * 0x1_0000 + g * 0x100 + r
  {
  }

  // ---------------------------------------------------------------------------
  // Properties

  /** uint32ToRGB reads back the red, green and blue bytes of a pixel value. */
  lemma Uint32ToRGBBytes(u: int, r: nat, g: nat, b: nat, a: nat)
    requires r < 256 && g < 256 && b < 256 && a < 256 && Uint32(u) == Pixel(r, g, b, a)
    ensures Uint32ToRGB(u) == RGB(Int(r), Int(g), Int(b), u)
  {
    Pow2Values();
    var p := Uint32(u);
    var hi1 := a * 0x1_0000 + b * 0x100 + g;
    var hi2 := a * 0x100 + b;
    assert p == r + 256 * hi1;
    assert UShr(u, 0) == p;
    assert UShr(u, 8) == hi1;
    assert UShr(u, 16) == hi2;
    LowByte(p, r, hi1);
    LowByte(hi1, g, hi2);
    LowByte(hi2, b, a);
  }

  /** Whatever the components, RGBToNumber sets the alpha byte to 0xFF. */
  lemma RGBToNumberOpaque(c: RGB)
    ensures UShr(RGBToNumber(c), 24) == 0xFF
  {
    var r, g, b, a := Unpack(Uint32(LowBits(c)));
    ShlAlpha(0xFF);
    assert RGBToNumber(c) == BitOr(LowBits(c), 0xFF00_0000);
    OrOpaque(LowBits(c), r, g, b, a);
    Pow2Values();
  }

  /** RGBToNumber of three bytes: the opaque pixel value, as a negative 32-bit integer. */
  lemma RGBToNumberBytes(r: nat, g: nat, b: nat, u: int)
    requires r < 256 && g < 256 && b < 256
    ensures RGBToNumber(RGB(Int(r), Int(g), Int(b), u)) == Pixel(r, g, b, 255) - TwoTo32
    ensures Uint32(RGBToNumber(RGB(Int(r), Int(g), Int(b), u))) == Pixel(r, g, b, 255)
  {
    var c := RGB(Int(r), Int(g), Int(b), u);
    var low := b * 0x1_0000 + g * 0x100 + r;
    LowBitsBytes(r, g, b, u);
    var y := BitOr(low, Shl(0xFF, 24));
    assert RGBToNumber(c) == y;
    OrAlpha(low, 0xFF);
    UShrZero(y);
    assert Uint32(y) == Pixel(r, g, b, 255);
  }

  /** Packing three bytes and unpacking them gives the bytes back. */
  lemma RGBRoundTrip(r: nat, g: nat, b: nat, u: int)
    requires r < 256 && g < 256 && b < 256
    ensures var n := RGBToNumber(RGB(Int(r), Int(g), Int(b), u));
      Uint32ToRGB(n) == RGB(Int(r), Int(g), Int(b), n)
  {
    RGBToNumberBytes(r, g, b, u);
    Uint32ToRGBBytes(RGBToNumber(RGB(Int(r), Int(g), Int(b), u)), r, g, b, 255);
  }

  /** Unpacking a value and packing it again keeps its low 24 bits and makes it opaque. */
  lemma NumberRGBRoundTrip(n: int)
    ensures Uint32(RGBToNumber(Uint32ToRGB(n))) == Uint32(n) % TwoTo24 + 0xFF00_0000
  {
    var r, g, b, a := Unpack(Uint32(n));
    PixelLow(r, g, b, a);
    Uint32ToRGBBytes(n, r, g, b, a);
    RGBToNumberBytes(r, g, b, n);
  }

  /** hexToRGB of six hex digits: the three bytes, and the opaque pixel value as uint32. */
  lemma HexToRGBDigits(x: string, y: string, z: string)
    requires |x| == 2 && |y| == 2 && |z| == 2 && AllHex(x) && AllHex(y) && AllHex(z)
    ensures HexValue(x) < 256 && HexValue(y) < 256 && HexValue(z) < 256
    ensures HexToRGB("#" + x + y + z) ==
      RGB(Int(HexValue(x)), Int(HexValue(y)), Int(HexValue(z)), Pixel(HexValue(x), HexValue(y), HexValue(z), 255))
  {
    var h := x + y + z;
    HexToNumberDigits(x, y, z, None, 255);
    HashJoin3(x, y, z);
    assert h[0] == x[0];
    StripHashDigits("#" + h, h);
    SixSlices(x, y, z);
    ParseHexDigits(x);
    ParseHexDigits(y);
    ParseHexDigits(z);
  }

  /** The bytes hexToRGB reads agree with those uint32ToRGB unpacks from its uint32. */
  lemma HexToRGBAgrees(x: string, y: string, z: string)
    requires |x| == 2 && |y| == 2 && |z| == 2 && AllHex(x) && AllHex(y) && AllHex(z)
    ensures var c := HexToRGB("#" + x + y + z);
      Uint32ToRGB(c.uint32) == c
  {
    HexToRGBDigits(x, y, z);
    var c := HexToRGB("#" + x + y + z);
    Uint32ToRGBBytes(c.uint32, HexValue(x), HexValue(y), HexValue(z), 255);
  }

  // ---------------------------------------------------------------------------
  // Import quantisation

  /** `(pixel >>> 24) < 16`: the pixel counts as transparent. */
  predicate Transparent(pixel: int)
  {
    UShr(pixel, 24) < 16
  }

  /** `pixel & 0xFFF0F0F0`: the colour with the low four bits of each channel cleared. */
  function Key(pixel: int): int
  {
    BitAnd(pixel, 0xFFF0_F0F0)
  }

  /** `mapping.get(key) || closest(...)`: a remembered colour, unless absent or 0. */
  function Lookup(mapping: map<int, int>, key: int, closest: Closest, palette: seq<RGB>): int
  {
    if key in mapping && mapping[key] != 0 then mapping[key] else closest(Uint32ToRGB(key), palette).uint32
  }

  /** What the import writes over a pixel, given the mapping it started from. */
  function Quantised(pixel: int, mapping: map<int, int>, closest: Closest, palette: seq<RGB>): int
  {
    if Transparent(pixel) then 0 else Uint32(Lookup(mapping, Key(pixel), closest, palette))
  }

  /** The mapping after the import has seen the pixels ps: each opaque key bound to its colour. */
  function Remember(mapping: map<int, int>, ps: seq<int>, closest: Closest, palette: seq<RGB>): map<int, int>
  {
    if ps == [] then mapping
    else
      var m := Remember(mapping, ps[..|ps| - 1], closest, palette);
      var p := ps[|ps| - 1];
      if Transparent(p) then m else m[Key(p) := Lookup(mapping, Key(p), closest, palette)]
  }

  /** Some opaque pixel of ps has the key k. */
  ghost predicate Touched(ps: seq<int>, k: int)
  {
    exists j :: 0 <= j < |ps| && !Transparent(ps[j]) && Key(ps[j]) == k
  }

  /**
   * Memoising never changes an answer: looking a key up in the grown mapping
   * gives what looking it up in the starting mapping gives.
   */
  lemma {:induction false} LookupRemember(mapping: map<int, int>, ps: seq<int>, k: int, closest: Closest, palette: seq<RGB>)
    ensures Lookup(Remember(mapping, ps, closest, palette), k, closest, palette) == Lookup(mapping, k, closest, palette)
    decreases |ps|
  {
    if ps != [] {
      LookupRemember(mapping, ps[..|ps| - 1], k, closest, palette);
    }
  }

  /** An opaque pixel with key k is among ps plus p when it is among ps or is p. */
  lemma TouchedSnoc(ps: seq<int>, p: int, k: int)
    ensures Touched(ps + [p], k) <==> Touched(ps, k) || (!Transparent(p) && Key(p) == k)
  {
    var qs := ps + [p];
    if Touched(ps, k) {
      var j :| 0 <= j < |ps| && !Transparent(ps[j]) && Key(ps[j]) == k;
      assert qs[j] == ps[j];
    }
    if !Transparent(p) && Key(p) == k {
      assert qs[|ps|] == p;
    }
    if Touched(qs, k) {
      var j :| 0 <= j < |qs| && !Transparent(qs[j]) && Key(qs[j]) == k;
      if j < |ps| {
        assert qs[j] == ps[j];
      }
    }
  }

  /** The grown mapping binds exactly the old keys and the keys of opaque pixels. */
  lemma {:induction false} RememberDomain(mapping: map<int, int>, ps: seq<int>, k: int, closest: Closest, palette: seq<RGB>)
    ensures k in Remember(mapping, ps, closest, palette) <==> k in mapping || Touched(ps, k)
    decreases |ps|
  {
    if ps != [] {
      var init := ps[..|ps| - 1];
      RememberDomain(mapping, init, k, closest, palette);
      TouchedSnoc(init, ps[|ps| - 1], k);
      assert init + [ps[|ps| - 1]] == ps;
    }
  }

  /** The keys of opaque pixels are bound to their colours, the other old keys keep their values. */
  lemma {:induction false} RememberValues(mapping: map<int, int>, ps: seq<int>, k: int, closest: Closest, palette: seq<RGB>)
    requires k in mapping || Touched(ps, k)
    ensures k in Remember(mapping, ps, closest, palette) &&
      Remember(mapping, ps, closest, palette)[k] == if Touched(ps, k) then Lookup(mapping, k, closest, palette) else mapping[k]
    decreases |ps|
  {
    RememberDomain(mapping, ps, k, closest, palette);
    if ps != [] {
      var init := ps[..|ps| - 1];
      TouchedSnoc(init, ps[|ps| - 1], k);
      assert init + [ps[|ps| - 1]] == ps;
      if k in mapping || Touched(init, k) {
        RememberValues(mapping, init, k, closest, palette);
      }
    }
  }

  /**
   * The per-drawing import loop: transparent pixels become 0, every other
   * pixel the colour remembered for its key, or the closest palette colour,
   * which is then remembered.
   */
  method QuantisePixels(pixels: array<int>, mapping: map<int, int>, closest: Closest, palette: seq<RGB>)
    returns (mapping': map<int, int>)
    modifies pixels
    ensures forall i :: 0 <= i < pixels.Length ==> pixels[i] == Quantised(old(pixels[i]), mapping, closest, palette)
    ensures mapping' == Remember(mapping, old(pixels[..]), closest, palette)
  {
    ghost var before := pixels[..];
    mapping' := mapping;
    var i := 0;
    while i < pixels.Length
      invariant 0 <= i <= pixels.Length
      invariant forall j :: 0 <= j < i ==> pixels[j] == Quantised(before[j], mapping, closest, palette)
      invariant forall j :: i <= j < pixels.Length ==> pixels[j] == before[j]
      invariant mapping' == Remember(mapping, before[..i], closest, palette)
    {
      var color;
      color, mapping' := QuantisePixel(pixels[i], mapping, before[..i], mapping', closest, palette);
      pixels[i] := color;
      assert before[..i + 1] == before[..i] + [before[i]];
      i := i + 1;
    }
    assert before[..i] == before;
  }

  /**
   * The loop body for one pixel: what it stores, and the mapping afterwards,
   * given the pixels seen before it.
   */
  method QuantisePixel(pixel: int, mapping: map<int, int>, ghost seen: seq<int>, current: map<int, int>,
                       closest: Closest, palette: seq<RGB>)
    returns (color: int, next: map<int, int>)
    requires current == Remember(mapping, seen, closest, palette)
    ensures color == Quantised(pixel, mapping, closest, palette)
    ensures next == Remember(mapping, seen + [pixel], closest, palette)
  {
    var alpha := UShr(pixel, 24) < 16;
    var check := BitAnd(pixel, 0xFFF0_F0F0);
    if alpha {
      color, next := 0, current;
    } else {
      var found := Lookup(current, check, closest, palette);
      LookupRemember(mapping, seen, check, closest, palette);
      next := current[check := found];
      color := Uint32(found);
    }
    assert (seen + [pixel])[..|seen|] == seen;
  }

  /** Two opaque pixels with the same masked colour are given the same colour. */
  lemma SameKeySameColour(p: int, q: int, mapping: map<int, int>, closest: Closest, palette: seq<RGB>)
    requires !Transparent(p) && !Transparent(q) && Key(p) == Key(q)
    ensures Quantised(p, mapping, closest, palette) == Quantised(q, mapping, closest, palette)
    ensures 0 <= Quantised(p, mapping, closest, palette) < TwoTo32
  {
  }

  /** `details.palette.slice(1).map(hexToRGB)`: every palette entry but the first, as records. */
  function Palette(hexes: seq<string>): (palette: seq<RGB>)
    ensures |palette| == if hexes == [] then 0 else |hexes| - 1
    ensures forall i :: 0 <= i < |palette| ==> palette[i] == HexToRGB(hexes[i + 1])
  {
    MapSeq(HexToRGB, if hexes == [] then [] else hexes[1..])
  }

  /** `s.map(f)`. */
  function MapSeq<A, B>(f: A -> B, s: seq<A>): (r: seq<B>)
    ensures |r| == |s| && forall i :: 0 <= i < |s| ==> r[i] == f(s[i])
  {
    if s == [] then [] else [f(s[0])] + MapSeq(f, s[1..])
  }

  /** What importing leaves in a pixel: 0, or the palette colour closest to its masked colour. */
  function Imported(pixel: int, closest: Closest, palette: seq<RGB>): int
  {
    if Transparent(pixel) then 0 else Uint32(closest(Uint32ToRGB(Key(pixel)), palette).uint32)
  }

  /** With a mapping that answers every lookup as an empty one does, quantising is importing. */
  lemma QuantisedImported(p: int, mapping: map<int, int>, closest: Closest, palette: seq<RGB>)
    requires forall k :: Lookup(mapping, k, closest, palette) == Lookup(map[], k, closest, palette)
    ensures Quantised(p, mapping, closest, palette) == Imported(p, closest, palette)
  {
    assert Lookup(mapping, Key(p), closest, palette) == Lookup(map[], Key(p), closest, palette);
  }

  /**
   * The import handler's loop over the new drawings, with one fresh mapping
   * shared by all of them: the memoisation is invisible, every pixel of every
   * drawing ends up as if looked up directly. The handler passes
   * Palette(details.palette) as the palette.
   */
  method ImportDrawings(drawings: seq<array<int>>, palette: seq<RGB>, closest: Closest)
    requires forall i, j :: 0 <= i < j < |drawings| ==> drawings[i] != drawings[j]
    modifies set d | d in drawings
    ensures forall i, k :: 0 <= i < |drawings| && 0 <= k < drawings[i].Length ==>
      drawings[i][k] == Imported(old(drawings[i][k]), closest, palette)
  {
    var mapping: map<int, int> := map[];
    var i := 0;
    while i < |drawings|
      invariant 0 <= i <= |drawings|
      invariant forall k :: Lookup(mapping, k, closest, palette) == Lookup(map[], k, closest, palette)
      invariant forall j, k :: 0 <= j < i && 0 <= k < drawings[j].Length ==>
        drawings[j][k] == Imported(old(drawings[j][k]), closest, palette)
      invariant forall j, k :: i <= j < |drawings| && 0 <= k < drawings[j].Length ==>
        drawings[j][k] == old(drawings[j][k])
    {
      var d := drawings[i];
      ghost var m0, before := mapping, d[..];
      assert forall k :: 0 <= k < d.Length ==> before[k] == old(d[k]);
      mapping := QuantisePixels(d, mapping, closest, palette);
      forall k | 0 <= k < d.Length
        ensures d[k] == Imported(old(d[k]), closest, palette)
      {
        QuantisedImported(before[k], m0, closest, palette);
      }
      forall k
        ensures Lookup(mapping, k, closest, palette) == Lookup(map[], k, closest, palette)
      {
        LookupRemember(m0, before, k, closest, palette);
      }
      i := i + 1;
    }
  }
}

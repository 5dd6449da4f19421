/** Palette generation: the four RGBA entries of a colour block
    (generateDXT1Lookup) and the eight entries of a DXT5 alpha block
    (generateDXT5AlphaLookup). Both are flat byte sequences laid out as the
    source's Uint8Array: colour entry k occupies bytes 4k..4k+3. */
module Palette {
  import opened Bytes
  import opened Rgb565

  /** How a colour block is read, decided once from its two packed endpoints. */
  datatype Mode = FourColor | PunchThrough

  /** The numeric comparison of the packed values, not their brightness,
      selects the mode. */
  function ModeOf(c0: u16, c1: u16): Mode
  {
    if c0 > c1 then FourColor else PunchThrough
  }

  /** The floored 2/3-1/3 blend of two channel values. */
  function TwoThirds(x: u8, y: u8): (v: u8)
    ensures 3 * v <= 2 * x + y < 3 * v + 3
  {
    (2 * x + y) / 3
  }

  /** The floored midpoint of two channel values. */
  function Half(x: u8, y: u8): (v: u8)
    ensures 2 * v <= x + y < 2 * v + 2
  {
    (x + y) / 2
  }

  /** Channel ch of entry k of the colour palette of generateDXT1Lookup, with
      the source's floating-point blends `floor((2/3 e0 + 1/3 e1) * 255)`
      taken exactly. In four-colour mode the entries are c0, c1 and the two
      thirds-blends; in punch-through mode they are c0, the midpoint, c1 and
      transparent black. Every entry but that last one is opaque. */
  function PaletteByte(c0: u16, c1: u16, k: nat, ch: nat): (v: u8)
    requires k < 4 && ch < 4
    ensures ch == 3 ==> v == (if k == 3 && c0 <= c1 then 0 else 255)
  {
    if ch == 3 then (if k == 3 && ModeOf(c0, c1) == PunchThrough then 0 else 255)
    else
      var x := Channel(ComponentsFromRGB565(c0), ch);
      var y := Channel(ComponentsFromRGB565(c1), ch);
      match ModeOf(c0, c1)
      case FourColor =>
        if k == 0 then x else if k == 1 then y
        else if k == 2 then TwoThirds(x, y) else TwoThirds(y, x)
      case PunchThrough =>
        if k == 0 then x else if k == 1 then Half(x, y)
        else if k == 2 then y else 0
  }

  /** The 16-byte lookup of generateDXT1Lookup: entry k at bytes 4k..4k+3. */
  function Dxt1Palette(c0: u16, c1: u16): (lookup: seq<u8>)
    ensures |lookup| == 16
  {
    seq(16, i requires 0 <= i < 16 => PaletteByte(c0, c1, i / 4, i % 4))
  }

  /** Byte 4k + ch of the lookup is channel ch of entry k. */
  lemma PaletteAt(c0: u16, c1: u16, k: nat, ch: nat)
    requires k < 4 && ch < 4
    ensures Dxt1Palette(c0, c1)[4 * k + ch] == PaletteByte(c0, c1, k, ch)
  {
    DivModUnique(4 * k + ch, 4, k, ch);
  }

  /** The RGBA quadruple of an expanded endpoint at full opacity. */
  function Opaque(e: Rgb): seq<u8>
  {
    [e.r, e.g, e.b, 255]
  }

  /** Entry k of a colour palette. */
  function Entry(lookup: seq<u8>, k: nat): seq<u8>
    requires |lookup| == 16 && k < 4
  {
    lookup[4 * k .. 4 * k + 4]
  }

  /** Byte ch of a decoded slot that holds palette entry k. */
  lemma EntryByte(rgba: seq<u8>, pal: seq<u8>, s: nat, k: nat, ch: nat)
    requires |rgba| == 64 && |pal| == 16 && s < 16 && k < 4 && ch < 4
    requires rgba[4 * s .. 4 * s + 4] == Entry(pal, k)
    ensures rgba[4 * s + ch] == pal[4 * k + ch]
  {
    assert rgba[4 * s + ch] == rgba[4 * s .. 4 * s + 4][ch];
  }

  /** What a colour palette holds: the two endpoints verbatim and opaque, the
      blends in between, and a transparent entry exactly when c0 <= c1. */
  lemma Dxt1PaletteShape(c0: u16, c1: u16)
    ensures var p := Dxt1Palette(c0, c1);
      var e0 := ComponentsFromRGB565(c0);
      var e1 := ComponentsFromRGB565(c1);
      && Entry(p, 0) == Opaque(e0)
      && p[3] == p[7] == p[11] == 255
      && (p[15] == 0 <==> c0 <= c1)
      && (c0 > c1 ==> Entry(p, 1) == Opaque(e1) && p[15] == 255)
      && (c0 <= c1 ==> Entry(p, 2) == Opaque(e1) && Entry(p, 3) == [0, 0, 0, 0])
  {
  }

  /** Every interpolated colour channel lies between the endpoints' channels;
      in four-colour mode entry 2 is nearer c0 and entry 3 nearer c1. */
  lemma Dxt1BlendsBetween(c0: u16, c1: u16, k: nat, ch: nat)
    requires ch < 3
    requires if c0 > c1 then 2 <= k < 4 else k == 1
    ensures var p := Dxt1Palette(c0, c1);
      var x := Channel(ComponentsFromRGB565(c0), ch);
      var y := Channel(ComponentsFromRGB565(c1), ch);
      var v: int := p[4 * k + ch];
      && (x <= v <= y || y <= v <= x)
      && (k == 2 ==> 3 * v <= 2 * x + y < 3 * v + 3)
      && (k == 3 ==> 3 * v <= x + 2 * y < 3 * v + 3)
      && (k == 1 ==> 2 * v <= x + y < 2 * v + 2)
  {
  }

  /** The four-colour lookup written out byte by byte, as generateDXT1Lookup
      stores it. */
  lemma FourColorLiteral(c0: u16, c1: u16)
    requires c0 > c1
    ensures var color0 := ComponentsFromRGB565(c0);
      var color1 := ComponentsFromRGB565(c1);
      Dxt1Palette(c0, c1) == [
        color0.r, color0.g, color0.b, 255,
        color1.r, color1.g, color1.b, 255,
        TwoThirds(color0.r, color1.r), TwoThirds(color0.g, color1.g), TwoThirds(color0.b, color1.b), 255,
        TwoThirds(color1.r, color0.r), TwoThirds(color1.g, color0.g), TwoThirds(color1.b, color0.b), 255]
  {
  }

  /** The punch-through lookup written out byte by byte. */
  lemma PunchThroughLiteral(c0: u16, c1: u16)
    requires c0 <= c1
    ensures var color0 := ComponentsFromRGB565(c0);
      var color1 := ComponentsFromRGB565(c1);
      Dxt1Palette(c0, c1) == [
        color0.r, color0.g, color0.b, 255,
        Half(color0.r, color1.r), Half(color0.g, color1.g), Half(color0.b, color1.b), 255,
        color1.r, color1.g, color1.b, 255,
        0, 0, 0, 0]
  {
  }

  /** generateDXT1Lookup: fills the caller's 16-byte lookup in place. The
      source stores the sixteen bytes one by one; here they are written in
      one parallel assignment from the same sixteen values. */
  method GenerateDXT1Lookup(c0: u16, c1: u16, lookup: array<u8>)
    requires lookup.Length == 16
    modifies lookup
    ensures lookup[..] == Dxt1Palette(c0, c1)
  {
    var color0 := ComponentsFromRGB565(c0);
    var color1 := ComponentsFromRGB565(c1);
    var bytes: seq<u8>;
    if c0 > c1 {
      // non-transparent mode
      FourColorLiteral(c0, c1);
      bytes := [
        color0.r, color0.g, color0.b, 255,
        color1.r, color1.g, color1.b, 255,
        TwoThirds(color0.r, color1.r), TwoThirds(color0.g, color1.g), TwoThirds(color0.b, color1.b), 255,
        TwoThirds(color1.r, color0.r), TwoThirds(color1.g, color0.g), TwoThirds(color1.b, color0.b), 255];
    } else {
      // transparent mode
      PunchThroughLiteral(c0, c1);
      bytes := [
        color0.r, color0.g, color0.b, 255,
        Half(color0.r, color1.r), Half(color0.g, color1.g), Half(color0.b, color1.b), 255,
        color1.r, color1.g, color1.b, 255,
        0, 0, 0, 0];
    }
    forall i | 0 <= i < 16 {
      lookup[i] := bytes[i];
    }
  }

  /** `Math.round(n / d)` for an odd divisor: n/d is never halfway between two
      integers, so the result is the unique integer within 1/2 of n/d. */
  function RoundDiv(n: nat, d: nat): (r: nat)
    requires d % 2 == 1
    ensures 2 * n - d < 2 * d * r < 2 * n + d
  {
    var r := (2 * n + d) / (2 * d);
    var m := (2 * n + d) % (2 * d);
    var t := r * d;
    assert r * (2 * d) == 2 * t && 2 * d * r == 2 * t;
    assert 2 * n + d == 2 * t + m;
    assert m != 0 by {
      assert (2 * n + d) % 2 == 1;
    }
    r
  }

  /** A rounded quotient of a value between d*lo and d*hi lies between lo and hi. */
  lemma RoundDivBetween(n: nat, d: nat, lo: int, hi: int)
    requires d % 2 == 1 && d * lo <= n <= d * hi
    ensures lo <= RoundDiv(n, d) <= hi
  {
    var r := RoundDiv(n, d);
    MulAtLeast(lo - r, 2 * d);
    MulAtLeast(r - hi, 2 * d);
    assert (lo - r) * (2 * d) == 2 * (d * lo) - 2 * d * r;
    assert (r - hi) * (2 * d) == 2 * d * r - 2 * (d * hi);
  }

  /** A weighted sum of two values lies between the total weight times the
      smaller and times the larger. */
  lemma WeightedSumBetween(wa: nat, a0: int, wb: nat, a1: int)
    requires a0 <= a1
    ensures (wa + wb) * a0 <= wa * a0 + wb * a1 <= (wa + wb) * a1
  {
    assert (wa + wb) * a0 == wa * a0 + wb * a0;
    assert (wa + wb) * a1 == wa * a1 + wb * a1;
    assert wb * a1 - wb * a0 == wb * (a1 - a0);
    assert wa * a1 - wa * a0 == wa * (a1 - a0);
  }

  /** The weighted blend `round((wa * a0 + wb * a1) / d)` of two alphas. */
  function AlphaBlend(wa: nat, a0: u8, wb: nat, a1: u8, d: nat): (v: u8)
    requires d % 2 == 1 && wa + wb == d
    ensures a0 <= v <= a1 || a1 <= v <= a0
  {
    var n := wa * a0 + wb * a1;
    if a0 <= a1 then
      WeightedSumBetween(wa, a0, wb, a1);
      RoundDivBetween(n, d, a0, a1);
      RoundDiv(n, d)
    else
      WeightedSumBetween(wb, a1, wa, a0);
      RoundDivBetween(n, d, a1, a0);
      RoundDiv(n, d)
  }

  /** Entry k of the alpha palette of generateDXT5AlphaLookup: a0 and a1, then
      either round(((8 - k) a0 + (k - 1) a1) / 7) for k = 2..7, or
      round(((6 - k) a0 + (k - 1) a1) / 5) for k = 2..5 followed by 0 and 255. */
  function AlphaEntry(a0: u8, a1: u8, k: nat): (v: u8)
    requires k < 8
    ensures 2 <= k && (a0 > a1 || k < 6) ==> a0 <= v <= a1 || a1 <= v <= a0
  {
    if k == 0 then a0
    else if k == 1 then a1
    else if a0 > a1 then AlphaBlend(8 - k, a0, k - 1, a1, 7)
    else if k < 6 then AlphaBlend(6 - k, a0, k - 1, a1, 5)
    else if k == 6 then 0
    else 255
  }

  /** The alpha palette of generateDXT5AlphaLookup. */
  function AlphaPalette(a0: u8, a1: u8): (lookup: seq<u8>)
    ensures |lookup| == 8
  {
    seq(8, k requires 0 <= k < 8 => AlphaEntry(a0, a1, k))
  }

  /** What an alpha palette holds: both endpoints verbatim, then either six
      interpolants stepping from a0 to a1 in sevenths, or four in fifths
      followed by 0 and 255. Each interpolant is the rounded blend (within
      1/2 of the exact one) and lies between the endpoints. */
  lemma AlphaPaletteShape(a0: u8, a1: u8)
    ensures var p := AlphaPalette(a0, a1);
      && p[0] == a0 && p[1] == a1
      && (a0 > a1 ==> forall k :: 2 <= k < 8 ==>
            a1 <= p[k] <= a0
            && 2 * ((8 - k) * a0 + (k - 1) * a1) - 7 < 14 * p[k] < 2 * ((8 - k) * a0 + (k - 1) * a1) + 7)
      && (a0 <= a1 ==> p[6] == 0 && p[7] == 255 && forall k :: 2 <= k < 6 ==>
            a0 <= p[k] <= a1
            && 2 * ((6 - k) * a0 + (k - 1) * a1) - 5 < 10 * p[k] < 2 * ((6 - k) * a0 + (k - 1) * a1) + 5)
  {
  }

  /** generateDXT5AlphaLookup: fills the caller's 8-byte lookup in place,
      the eight bytes written in one parallel assignment. */
  method GenerateDXT5AlphaLookup(alpha0: u8, alpha1: u8, alphaLookup: array<u8>)
    requires alphaLookup.Length == 8
    modifies alphaLookup
    ensures alphaLookup[..] == AlphaPalette(alpha0, alpha1)
  {
    var bytes: seq<u8>;
    if alpha0 > alpha1 {
      bytes := [alpha0, alpha1,
        AlphaBlend(6, alpha0, 1, alpha1, 7),
        AlphaBlend(5, alpha0, 2, alpha1, 7),
        AlphaBlend(4, alpha0, 3, alpha1, 7),
        AlphaBlend(3, alpha0, 4, alpha1, 7),
        AlphaBlend(2, alpha0, 5, alpha1, 7),
        AlphaBlend(1, alpha0, 6, alpha1, 7)];
    } else {
      bytes := [alpha0, alpha1,
        AlphaBlend(4, alpha0, 1, alpha1, 5),
        AlphaBlend(3, alpha0, 2, alpha1, 5),
        AlphaBlend(2, alpha0, 3, alpha1, 5),
        AlphaBlend(1, alpha0, 4, alpha1, 5),
        0, 255];
    }
    forall i | 0 <= i < 8 {
      alphaLookup[i] := bytes[i];
    }
  }
}

/** What the DXT1 codec guarantees: the block layout round-trips the
    endpoints and the 2-bit codes (with the in-row mirroring of slots), every
    decoded pixel is the palette entry nearest to the source pixel it came
    from, the transparency test selects the palette mode, and solid and fully
    transparent blocks decode as expected. */
module Dxt1Props {
  import opened Bytes
  import opened Rgb565
  import opened Palette
  import opened Nearest
  import opened Dxt1

  /** Slot s of the decoded block is the lookup entry its code selects. */
  lemma {:induction false} DecodeSlotsAt(data: seq<u8>, lookup: seq<u8>, n: nat, s: nat)
    requires |data| == 8 && |lookup| == 16 && s < n <= 16
    ensures DecodeSlots(data, lookup, n)[4 * s .. 4 * s + 4] == Entry(lookup, Code(data, s))
  {
    var prev := DecodeSlots(data, lookup, n - 1);
    var code: nat := Code(data, n - 1);
    assert DecodeSlots(data, lookup, n) == prev + lookup[4 * code .. 4 * code + 4];
    if s < n - 1 {
      DecodeSlotsAt(data, lookup, n - 1, s);
      assert DecodeSlots(data, lookup, n)[4 * s .. 4 * s + 4] == prev[4 * s .. 4 * s + 4];
    }
  }

  /** Unpacking a row byte gives back its four codes, the last one in the
      low bits. */
  lemma CrumbOfPack(i0: Code2, i1: Code2, i2: Code2, i3: Code2)
    ensures var b := PackCodes(i0, i1, i2, i3);
      Crumb(b, 0) == i3 && Crumb(b, 1) == i2 && Crumb(b, 2) == i1 && Crumb(b, 3) == i0
  {
    var b := PackCodes(i0, i1, i2, i3);
    DivModUnique(b, 4, i0 * 16 + i1 * 4 + i2, i3);
    DivModUnique(b / 4, 4, i0 * 4 + i1, i2);
    DivModUnique(b, 16, i0 * 4 + i1, i2 * 4 + i3);
    DivModUnique(b / 16, 4, i0, i1);
    DivModUnique(b, 64, i0, i1 * 16 + i2 * 4 + i3);
  }

  /** The two endpoint words of a block read back as written. */
  lemma BlockWords(c0: u16, c1: u16, idx: seq<Code2>)
    requires |idx| == 16
    ensures Word(Block(c0, c1, idx), 0) == c0 && Word(Block(c0, c1, idx), 2) == c1
  {
    SplitWord(c0);
    SplitWord(c1);
  }

  /** Row byte r of a block packs the indices of pixels 4r .. 4r + 3. */
  lemma BlockRow(c0: u16, c1: u16, idx: seq<Code2>, r: nat)
    requires |idx| == 16 && r < 4
    ensures Block(c0, c1, idx)[4 + r] == PackCodes(idx[4 * r], idx[4 * r + 1], idx[4 * r + 2], idx[4 * r + 3])
  {
  }

  /** The decoder reads the code of slot s from where the encoder stored the
      index of pixel Mirror(s). */
  lemma BlockCode(c0: u16, c1: u16, idx: seq<Code2>, s: nat)
    requires |idx| == 16 && s < 16
    ensures Code(Block(c0, c1, idx), s) == idx[Mirror(s)]
  {
    var r, j := s / 4, s % 4;
    BlockRow(c0, c1, idx, r);
    CrumbOfPack(idx[4 * r], idx[4 * r + 1], idx[4 * r + 2], idx[4 * r + 3]);
    assert Mirror(s) == 4 * r + 3 - j;
  }

  /** The index of pixel j is its nearest lookup entry. */
  lemma {:induction false} IndicesAt(px: seq<u8>, lookup: seq<u8>, n: nat, j: nat)
    requires |px| == 64 && |lookup| == 16 && j < n <= 16
    ensures IndicesUpTo(px, lookup, n)[j] == NearestColor(Pixel(px, j), lookup)
  {
    if j < n - 1 {
      IndicesAt(px, lookup, n - 1, j);
    }
  }

  /** Round trip for given endpoints: slot s of the decoded block is the
      entry of the encoder's palette nearest (by squared RGBA distance) to
      source pixel Mirror(s), the first such entry on a tie. */
  lemma EncodeWithEndpointsRoundTrip(px: seq<u8>, c0: u16, c1: u16, s: nat)
    requires |px| == 64 && s < 16
    ensures var pal := Dxt1Palette(c0, c1);
      var color := Pixel(px, Mirror(s));
      var k := NearestColor(color, pal);
      && k < 4
      && DecodeDxt1(EncodeWithEndpoints(px, c0, c1))[4 * s .. 4 * s + 4] == Entry(pal, k)
      && (forall k' :: 0 <= k' < 4 ==> SquaredDistance(color, pal, k) <= SquaredDistance(color, pal, k'))
      && (forall k' :: 0 <= k' < k ==> SquaredDistance(color, pal, k) < SquaredDistance(color, pal, k'))
  {
    var pal := Dxt1Palette(c0, c1);
    var idx := Indices(px, pal);
    var blk := Block(c0, c1, idx);
    BlockWords(c0, c1, idx);
    DecodeSlotsAt(blk, pal, 16, s);
    BlockCode(c0, c1, idx, s);
    IndicesAt(px, pal, 16, Mirror(s));
  }

  /** Round trip of compressBlockDXT1 followed by decompressBlockDXT1. */
  lemma Dxt1RoundTrip(px: seq<u8>, forceNoAlpha: bool, s: nat)
    requires |px| == 64 && s < 16
    ensures var (c0, c1) := Endpoints(px, forceNoAlpha);
      var pal := Dxt1Palette(c0, c1);
      var color := Pixel(px, Mirror(s));
      var k := NearestColor(color, pal);
      && k < 4
      && DecodeDxt1(EncodeDxt1(px, forceNoAlpha))[4 * s .. 4 * s + 4] == Entry(pal, k)
      && (forall k' :: 0 <= k' < 4 ==> SquaredDistance(color, pal, k) <= SquaredDistance(color, pal, k'))
      && (forall k' :: 0 <= k' < k ==> SquaredDistance(color, pal, k) < SquaredDistance(color, pal, k'))
  {
    var (c0, c1) := Endpoints(px, forceNoAlpha);
    EncodeWithEndpointsRoundTrip(px, c0, c1, s);
  }

  /** The per-channel maximum of the pixels with non-zero alpha is at least
      their minimum, once there is such a pixel; so the packed maximum is at
      least the packed minimum. */
  lemma PackedBoundsOrdered(px: seq<u8>, j: nat)
    requires |px| == 64 && j < 16 && Counted(px, j)
    ensures var s := ScanPixels(px, 16);
      MakeRGB565(s.maxR, s.maxG, s.maxB) >= MakeRGB565(s.minR, s.minG, s.minB)
  {
    ScanChannelBounds(px, 16, 0);
    ScanChannelBounds(px, 16, 1);
    ScanChannelBounds(px, 16, 2);
    var s := ScanPixels(px, 16);
    MakeMonotone(s.maxR, s.maxG, s.maxB, s.minR, s.minG, s.minB);
  }

  /** A pixel whose alpha is below AlphaTest makes the colour block use the
      punch-through palette (c0 <= c1), unless alpha is suppressed. */
  lemma TransparencySelectsPunchThrough(px: seq<u8>, j: nat)
    requires |px| == 64 && j < 16 && Alpha(px, j) < AlphaTest
    ensures var (c0, c1) := Endpoints(px, false); ModeOf(c0, c1) == PunchThrough
  {
    ScanAlphaBounds(px, 16);
    var s := ScanPixels(px, 16);
    if s.maxA != 0 {
      var j' :| 0 <= j' < 16 && Alpha(px, j') == s.maxA;
      PackedBoundsOrdered(px, j');
    }
  }

  /** When alpha is suppressed, or no alpha is below AlphaTest, and some pixel
      is not fully transparent, the endpoints are the packed maximum and
      minimum in that order: c0 >= c1, and the four-colour palette is used
      unless both pack to the same value. */
  lemma OpaqueKeepsOrder(px: seq<u8>, forceNoAlpha: bool, j: nat)
    requires |px| == 64 && j < 16 && Counted(px, j)
    requires forceNoAlpha || forall i :: 0 <= i < 16 ==> Alpha(px, i) >= AlphaTest
    ensures var (c0, c1) := Endpoints(px, forceNoAlpha);
      var s := ScanPixels(px, 16);
      && c0 == MakeRGB565(s.maxR, s.maxG, s.maxB)
      && c1 == MakeRGB565(s.minR, s.minG, s.minB)
      && c0 >= c1
  {
    ScanAlphaBounds(px, 16);
    PackedBoundsOrdered(px, j);
  }

  /** Every pixel of the block is the same opaque colour. */
  predicate SolidOpaque(px: seq<u8>, r: u8, g: u8, b: u8)
    requires |px| == 64
  {
    forall j :: 0 <= j < 16 ==> Pixel(px, j) == [r, g, b, 255]
  }

  /** The scan of a solid opaque block finds that colour as both maximum and
      minimum and alpha 255 throughout. */
  lemma SolidScan(px: seq<u8>, r: u8, g: u8, b: u8)
    requires |px| == 64 && SolidOpaque(px, r, g, b)
    ensures ScanPixels(px, 16) == ColorBounds(r, g, b, r, g, b, 255, 255)
  {
    SolidChannels(px, r, g, b);
    assert Counted(px, 0);
    ScanAlphaBounds(px, 16);
    ScanChannelBounds(px, 16, 0);
    ScanChannelBounds(px, 16, 1);
    ScanChannelBounds(px, 16, 2);
  }

  /** The bytes of a solid opaque block, channel by channel. */
  lemma SolidChannels(px: seq<u8>, r: u8, g: u8, b: u8)
    requires |px| == 64 && SolidOpaque(px, r, g, b)
    ensures forall j :: 0 <= j < 16 ==>
      px[4 * j] == r && px[4 * j + 1] == g && px[4 * j + 2] == b && Alpha(px, j) == 255
  {
    forall j | 0 <= j < 16
      ensures px[4 * j] == r && px[4 * j + 1] == g && px[4 * j + 2] == b && Alpha(px, j) == 255
    {
      assert Pixel(px, j) == [r, g, b, 255];
    }
  }

  /** For an opaque colour, the nearest entry of the palette built from its
      own packed value twice is the quantised colour: the three opaque
      entries all equal it, and the transparent entry is farther. */
  lemma SolidNearest(r: u8, g: u8, b: u8)
    ensures var c := MakeRGB565(r, g, b);
      var pal := Dxt1Palette(c, c);
      Entry(pal, NearestColor([r, g, b, 255], pal)) == [r - r % 8, g - g % 4, b - b % 8, 255]
  {
    var c := MakeRGB565(r, g, b);
    SolidPalette(r, g, b);
    QuantisedNearerThanClear(r, g, b, Dxt1Palette(c, c));
    NearestOfTriple([r, g, b, 255], r - r % 8, g - g % 4, b - b % 8, Dxt1Palette(c, c));
  }

  /** The palette of a colour packed twice: three copies of the quantised
      colour, then transparent black. */
  lemma SolidPalette(r: u8, g: u8, b: u8)
    ensures var c := MakeRGB565(r, g, b);
      var (qr, qg, qb) := (r - r % 8, g - g % 4, b - b % 8);
      Dxt1Palette(c, c) == [qr, qg, qb, 255, qr, qg, qb, 255, qr, qg, qb, 255, 0, 0, 0, 0]
  {
    var c := MakeRGB565(r, g, b);
    ExpandPacked(r, g, b);
    PunchThroughLiteral(c, c);
    var x := ComponentsFromRGB565(c);
    assert Half(x.r, x.r) == x.r && Half(x.g, x.g) == x.g && Half(x.b, x.b) == x.b;
  }

  /** An opaque colour is nearer its quantised self than transparent black. */
  lemma QuantisedNearerThanClear(r: u8, g: u8, b: u8, pal: seq<u8>)
    requires var (qr, qg, qb) := (r - r % 8, g - g % 4, b - b % 8);
      pal == [qr, qg, qb, 255, qr, qg, qb, 255, qr, qg, qb, 255, 0, 0, 0, 0]
    ensures SquaredDistance([r, g, b, 255], pal, 0) < SquaredDistance([r, g, b, 255], pal, 3)
  {
    var color: seq<u8> := [r, g, b, 255];
    var dr: int, dg: int, db: int := r % 8, g % 4, b % 8;
    var ri: int, gi: int, bi: int := r, g, b;
    assert SquaredDistance(color, pal, 0) == dr * dr + db * db + dg * dg;
    assert SquaredDistance(color, pal, 3) == ri * ri + bi * bi + gi * gi + 255 * 255;
    assert dr * dr + db * db + dg * dg < 255 * 255 by {
      MulMono(dr, 7, dr);
      MulMono(dg, 3, dg);
      MulMono(db, 7, db);
    }
    assert 0 <= ri * ri && 0 <= gi * gi && 0 <= bi * bi;
  }

  /** In a palette whose first three entries are the same colour, the
      nearest entry is that colour unless the fourth is strictly nearer. */
  lemma NearestOfTriple(color: seq<u8>, qr: u8, qg: u8, qb: u8, pal: seq<u8>)
    requires |color| == 4 && pal == [qr, qg, qb, 255, qr, qg, qb, 255, qr, qg, qb, 255, 0, 0, 0, 0]
    requires SquaredDistance(color, pal, 0) < SquaredDistance(color, pal, 3)
    ensures Entry(pal, NearestColor(color, pal)) == [qr, qg, qb, 255]
  {
    var k := NearestColor(color, pal);
    assert Entry(pal, 0) == Entry(pal, 1) == Entry(pal, 2) == [qr, qg, qb, 255];
  }

  /** A block of one opaque colour decodes to that colour with its low bits
      cleared (the RGB565 quantisation) at full opacity, in every slot. Both
      endpoints are the same packed colour, which selects the punch-through
      palette; its transparent entry is never the nearest. */
  lemma SolidOpaqueBlock(px: seq<u8>, forceNoAlpha: bool, r: u8, g: u8, b: u8, s: nat)
    requires |px| == 64 && SolidOpaque(px, r, g, b) && s < 16
    ensures DecodeDxt1(EncodeDxt1(px, forceNoAlpha))[4 * s .. 4 * s + 4]
      == [r - r % 8, g - g % 4, b - b % 8, 255]
  {
    SolidScan(px, r, g, b);
    var c := MakeRGB565(r, g, b);
    assert Endpoints(px, forceNoAlpha) == (c, c);
    assert Pixel(px, Mirror(s)) == [r, g, b, 255];
    Dxt1RoundTrip(px, forceNoAlpha, s);
    SolidNearest(r, g, b);
  }

  /** Every pixel of the block is fully transparent. */
  predicate AllTransparent(px: seq<u8>)
    requires |px| == 64
  {
    forall j :: 0 <= j < 16 ==> Alpha(px, j) == 0
  }

  /** The endpoints as written for a fully transparent block: no pixel
      counts for colour, so the bounds keep their start values, and after the
      swap both endpoints are 0xFFFF. */
  lemma AllTransparentEndpointsAsWritten(px: seq<u8>)
    requires |px| == 64 && AllTransparent(px)
    ensures Endpoints(px, false) == (0xFFFF, 0xFFFF)
  {
    ScanAlphaBounds(px, 16);
    ScanChannelBounds(px, 16, 0);
    ScanChannelBounds(px, 16, 1);
    ScanChannelBounds(px, 16, 2);
    assert Alpha(px, 0) == 0;
  }

  /** The palette of two 0xFFFF endpoints: three copies of (248, 252, 248)
      opaque, then transparent black. */
  lemma WhitePalette(c: u16)
    requires c == 0xFFFF
    ensures Dxt1Palette(c, c) == [248, 252, 248, 255, 248, 252, 248, 255, 248, 252, 248, 255, 0, 0, 0, 0]
  {
    assert ComponentsFromRGB565(c) == Rgb(248, 252, 248);
    PunchThroughLiteral(c, c);
  }

  /** A white pixel of alpha 0 lies at squared distance 65132 from the
      opaque entry (248, 252, 248, 255) and 195075 from transparent black. */
  lemma ClearWhiteDistances(color: seq<u8>, pal: seq<u8>)
    requires color == [255, 255, 255, 0]
    requires pal == [248, 252, 248, 255, 248, 252, 248, 255, 248, 252, 248, 255, 0, 0, 0, 0]
    ensures SquaredDistance(color, pal, 0) == 65132
    ensures SquaredDistance(color, pal, 3) == 195075
  {
  }

  /** Against the palette of two 0xFFFF endpoints, a white pixel of alpha 0
      is nearer entry 0 than the transparent entry: its nearest entry is
      opaque. */
  lemma ClearWhiteNearestOpaque(color: seq<u8>, c: u16)
    requires color == [255, 255, 255, 0] && c == 0xFFFF
    ensures var pal := Dxt1Palette(c, c);
      pal[4 * NearestColor(color, pal) + 3] == 255
  {
    var pal := Dxt1Palette(c, c);
    WhitePalette(c);
    ClearWhiteDistances(color, pal);
    NearestOpaqueWhenNearer(color, pal);
  }

  /** When the first three entries of a punch-through palette are opaque and
      the first is strictly nearer than the transparent fourth, the nearest
      entry is opaque. */
  lemma NearestOpaqueWhenNearer(color: seq<u8>, pal: seq<u8>)
    requires |color| == 4 && |pal| == 16 && pal[3] == pal[7] == pal[11] == 255
    requires SquaredDistance(color, pal, 0) < SquaredDistance(color, pal, 3)
    ensures pal[4 * NearestColor(color, pal) + 3] == 255
  {
    var k := NearestColor(color, pal);
    assert k != 3;
  }

  /** The code as written turns a fully transparent block into an opaque one
      wherever a pixel is white: both endpoints are 0xFFFF and a white pixel
      of alpha 0 takes an opaque entry, so it decodes with alpha 255. */
  lemma TransparentWhiteDecodesOpaqueAsWritten(px: seq<u8>, s: nat)
    requires |px| == 64 && AllTransparent(px) && s < 16
    requires Pixel(px, Mirror(s)) == [255, 255, 255, 0]
    ensures DecodeDxt1(EncodeDxt1(px, false))[4 * s + 3] == 255
  {
    AllTransparentEndpointsAsWritten(px);
    var (c0, c1) := Endpoints(px, false);
    var pal := Dxt1Palette(c0, c1);
    var k := NearestColor(Pixel(px, Mirror(s)), pal);
    EncodeWithEndpointsRoundTrip(px, c0, c1, s);
    ClearWhiteNearestOpaque(Pixel(px, Mirror(s)), c0);
    EntryByte(DecodeDxt1(EncodeWithEndpoints(px, c0, c1)), pal, s, k, 3);
  }

  /** Against the palette of two black endpoints, a pixel of alpha 0 is
      nearest the transparent entry: every opaque entry adds 255 * 255 for
      alpha to the same colour distance. */
  lemma TransparentNearestBlack(color: seq<u8>, c: u16)
    requires |color| == 4 && color[3] == 0 && c == 0
    ensures NearestColor(color, Dxt1Palette(c, c)) == 3
  {
    var pal := Dxt1Palette(c, c);
    BlackPalette(c);
    BlackDistances(color, pal);
  }

  /** The palette of two black endpoints: opaque black three times, then
      transparent black. */
  lemma BlackPalette(c: u16)
    requires c == 0
    ensures Dxt1Palette(c, c) == [0, 0, 0, 255, 0, 0, 0, 255, 0, 0, 0, 255, 0, 0, 0, 0]
  {
    assert ComponentsFromRGB565(c) == Rgb(0, 0, 0);
    PunchThroughLiteral(c, c);
  }

  /** Each opaque black entry is 255 * 255 farther than transparent black
      from a pixel of alpha 0. */
  lemma BlackDistances(color: seq<u8>, pal: seq<u8>)
    requires |color| == 4 && color[3] == 0
    requires pal == [0, 0, 0, 255, 0, 0, 0, 255, 0, 0, 0, 255, 0, 0, 0, 0]
    ensures forall k :: 0 <= k < 3 ==> SquaredDistance(color, pal, 3) < SquaredDistance(color, pal, k)
  {
    var x0: int, x1: int, x2: int := color[0], color[1], color[2];
    var d := x0 * x0 + x2 * x2 + x1 * x1;
    assert SquaredDistance(color, pal, 3) == d;
    assert SquaredDistance(color, pal, 0) == d + 255 * 255;
    assert SquaredDistance(color, pal, 1) == d + 255 * 255;
    assert SquaredDistance(color, pal, 2) == d + 255 * 255;
  }

  /** With the corrected endpoints a fully transparent block (without
      alpha suppression) decodes to transparent black in every slot. */
  lemma FullyTransparentBlock(px: seq<u8>, s: nat)
    requires |px| == 64 && AllTransparent(px) && s < 16
    ensures DecodeDxt1(EncodeDxt1Corrected(px, false))[4 * s .. 4 * s + 4] == [0, 0, 0, 0]
  {
    AllTransparentEndpoints(px);
    var (c0, c1) := CorrectedEndpoints(px, false);
    assert Alpha(px, Mirror(s)) == 0;
    EncodeWithEndpointsRoundTrip(px, c0, c1, s);
    TransparentNearestBlack(Pixel(px, Mirror(s)), c0);
    BlackPalette(c0);
  }

  /** The corrected endpoints of a fully transparent block without alpha
      suppression are both black. */
  lemma AllTransparentEndpoints(px: seq<u8>)
    requires |px| == 64 && AllTransparent(px)
    ensures CorrectedEndpoints(px, false) == (0, 0)
  {
    ScanAlphaBounds(px, 16);
    assert Alpha(px, 0) == 0;
  }
}

/** What the DXT5 codec guarantees: the packed indices read back exactly,
    each decoded alpha is the palette entry nearest the source alpha, the
    extreme alphas survive unchanged, and the colour half is the DXT1
    colour block with alpha suppressed. */
module Dxt5Props {
  import opened Bytes
  import opened Palette
  import opened Nearest
  import opened Dxt1
  import opened Dxt1Props
  import opened Composite
  import opened Dxt5

  /** The first byte of a group: fields 0 and 1 and the low two bits of
      field 2. */
  lemma LowByteFields(f0: Code3, f1: Code3, r: nat)
    requires r < 4
    ensures var b := f0 + 8 * f1 + 64 * r;
      b % 8 == f0 && b / 8 % 8 == f1 && b / 64 == r
  {
    var b := f0 + 8 * f1 + 64 * r;
    DivModUnique(b, 8, f1 + 8 * r, f0);
    DivModUnique(f1 + 8 * r, 8, r, f1);
    DivModUnique(b, 64, r, f0 + 8 * f1);
  }

  /** The second byte of a group: the high bit of field 2, fields 3 and 4
      and the low bit of field 5. */
  lemma MidByteFields(q: nat, f3: Code3, f4: Code3, r: nat)
    requires q < 2 && r < 2
    ensures var b := q + 2 * f3 + 16 * f4 + 128 * r;
      b % 2 == q && b / 2 % 8 == f3 && b / 16 % 8 == f4 && b / 128 == r
  {
    var b := q + 2 * f3 + 16 * f4 + 128 * r;
    DivModUnique(b, 2, f3 + 8 * f4 + 64 * r, q);
    DivModUnique(f3 + 8 * f4 + 64 * r, 8, f4 + 8 * r, f3);
    DivModUnique(b, 16, f4 + 8 * r, q + 2 * f3);
    DivModUnique(f4 + 8 * r, 8, r, f4);
    DivModUnique(b, 128, r, q + 2 * f3 + 16 * f4);
  }

  /** The third byte of a group: the high two bits of field 5 and fields 6
      and 7. */
  lemma HighByteFields(q: nat, f6: Code3, f7: Code3)
    requires q < 4
    ensures var b := q + 4 * f6 + 32 * f7;
      b % 4 == q && b / 4 % 8 == f6 && b / 32 == f7
  {
    var b := q + 4 * f6 + 32 * f7;
    DivModUnique(b, 4, f6 + 8 * f7, q);
    DivModUnique(f6 + 8 * f7, 8, f7, f6);
    DivModUnique(b, 32, f7, q + 4 * f6);
  }

  /** The three bytes of a packed group, field by field. */
  lemma Pack24Bytes(f: seq<Code3>)
    requires |f| == 8
    ensures var v := Pack24(f);
      var x: seq<int> := f;
      && v % 0x100 == x[0] + 8 * x[1] + 64 * (x[2] % 4)
      && v / 0x100 % 0x100 == x[2] / 4 + 2 * x[3] + 16 * x[4] + 128 * (x[5] % 2)
      && v / 0x1_0000 == x[5] / 2 + 4 * x[6] + 32 * x[7]
  {
    var v := Pack24(f);
    var x: seq<int> := f;
    var b0 := x[0] + 8 * x[1] + 64 * (x[2] % 4);
    var b1 := x[2] / 4 + 2 * x[3] + 16 * x[4] + 128 * (x[5] % 2);
    var b2 := x[5] / 2 + 4 * x[6] + 32 * x[7];
    assert x[2] == 4 * (x[2] / 4) + x[2] % 4 && x[5] == 2 * (x[5] / 2) + x[5] % 2;
    assert v == b0 + 0x100 * b1 + 0x1_0000 * b2;
    DivModUnique(v, 0x100, b1 + 0x100 * b2, b0);
    DivModUnique(b1 + 0x100 * b2, 0x100, b2, b1);
    DivModUnique(v, 0x1_0000, b2, b0 + 0x100 * b1);
  }

  /** Field round trip: the decoder's field extraction recovers every field
      the compressor packed into a group. */
  lemma Pack24Fields(f: seq<Code3>, t: nat)
    requires |f| == 8 && t < 8
    ensures var bytes := GroupBytes(Pack24(f));
      Field(bytes[0], bytes[1], bytes[2], t) == f[t]
  {
    Pack24Bytes(f);
    LowByteFields(f[0], f[1], f[2] % 4);
    MidByteFields(f[2] / 4, f[3], f[4], f[5] % 2);
    HighByteFields(f[5] / 2, f[6], f[7]);
  }

  /** Slot s of a block lies in group s / 8 at field s % 8, and the field
      holds the index of pixel Mirror(s). */
  lemma GroupSlot(codes: seq<Code3>, s: nat)
    requires |codes| == 16 && s < 16
    ensures var bytes := GroupBytes(Group(codes, s / 8));
      Field(bytes[0], bytes[1], bytes[2], s % 8) == codes[Mirror(s)]
  {
    var g, t := s / 8, s % 8;
    var b := 8 * g;
    var f := [codes[b + 3], codes[b + 2], codes[b + 1], codes[b],
              codes[b + 7], codes[b + 6], codes[b + 5], codes[b + 4]];
    Pack24Fields(f, t);
    MirrorInGroup(s);
  }

  /** Mirroring keeps a slot within its group of eight. */
  lemma MirrorInGroup(s: nat)
    requires s < 16
    ensures var t := s % 8;
      Mirror(s) == 8 * (s / 8) + (if t < 4 then 3 - t else 11 - t)
  {
    DivModUnique(s, 4, 2 * (s / 8) + s % 8 / 4, s % 4);
  }

  /** In any block whose first 8 bytes are an alpha block, slot s reads the
      index of pixel Mirror(s), and the palette is built from the two
      endpoint alphas. */
  lemma AlphaBlockDecodes(a0: u8, a1: u8, codes: seq<Code3>, colour: seq<u8>, s: nat)
    requires |codes| == 16 && |colour| == 8 && s < 16
    ensures Dxt5Code(AlphaBlock(a0, a1, codes) + colour, s) == codes[Mirror(s)]
    ensures Dxt5AlphaPalette(AlphaBlock(a0, a1, codes) + colour) == AlphaPalette(a0, a1)
  {
    var block := AlphaBlock(a0, a1, codes) + colour;
    var g := s / 8;
    var bytes := GroupBytes(Group(codes, g));
    assert block[2 + 3 * g .. 5 + 3 * g] == bytes;
    GroupSlot(codes, s);
  }

  /** Index round trip: the decoder reads for slot s the index the
      compressor chose for pixel Mirror(s). */
  lemma Dxt5CodeRoundTrip(px: seq<u8>, s: nat)
    requires |px| == 64 && s < 16
    ensures Dxt5Code(EncodeDxt5(px), s) == AlphaCodes(px, BlockAlphaPalette(px))[Mirror(s)]
    ensures Dxt5AlphaPalette(EncodeDxt5(px)) == BlockAlphaPalette(px)
  {
    var b := ScanPixels(px, 16);
    AlphaBlockDecodes(b.minA, b.maxA, AlphaCodes(px, BlockAlphaPalette(px)), EncodeDxt1(px, true), s);
  }

  /** Alpha round trip: slot s decodes to the entry of the block's alpha
      palette nearest the alpha of source pixel Mirror(s); no entry is
      nearer, and no earlier entry is as near. */
  lemma Dxt5AlphaRoundTrip(px: seq<u8>, prior: seq<u8>, s: nat)
    requires |px| == 64 && |prior| == 64 && s < 16
    ensures var pal := BlockAlphaPalette(px);
      var a := Alpha(px, Mirror(s));
      var k := NearestAlpha(a, pal);
      && DecodeDxt5(EncodeDxt5(px), prior)[4 * s + 3] == pal[k]
      && (forall j :: 0 <= j < 8 ==> Abs(a - pal[k]) <= Abs(a - pal[j]))
      && (forall j :: 0 <= j < k ==> Abs(a - pal[k]) < Abs(a - pal[j]))
  {
    var pal := BlockAlphaPalette(px);
    var a := Alpha(px, Mirror(s));
    var block := EncodeDxt5(px);
    DecodedAlpha(block, prior, s);
    Dxt5CodeRoundTrip(px, s);
    assert Dxt5Code(block, s) == NearestAlpha(a, pal);
  }

  /** The alpha byte of slot s after decoding: the palette entry its index
      selects. */
  lemma DecodedAlpha(data: seq<u8>, prior: seq<u8>, s: nat)
    requires |prior| == 64 && s < 16
    ensures DecodeDxt5(data, prior)[4 * s + 3] == Dxt5AlphaPalette(data)[Dxt5Code(data, s)]
  {
    SetAlphasAt(ColourTail(data, prior), Dxt5Alphas(data), s, 3);
  }

  /** The compressor stores the least alpha as alpha0 and the greatest as
      alpha1, so alpha0 > alpha1 never holds: its palette is always the
      four-interpolant one, with 0 and 255 as its last entries. */
  lemma BlockPaletteHasExtremes(px: seq<u8>)
    requires |px| == 64
    ensures var b := ScanPixels(px, 16);
      var pal := BlockAlphaPalette(px);
      && b.minA <= b.maxA
      && pal[0] == b.minA && pal[1] == b.maxA && pal[6] == 0 && pal[7] == 255
  {
    ScanAlphaBounds(px, 16);
    assert ScanPixels(px, 16).minA <= Alpha(px, 0);
    var b := ScanPixels(px, 16);
    AlphaPaletteShape(b.minA, b.maxA);
  }

  /** The alpha bytes 0 and 1 of an encoded block are the least and the
      greatest alpha of the block. */
  lemma Dxt5Endpoints(px: seq<u8>)
    requires |px| == 64
    ensures var block := EncodeDxt5(px);
      && (forall j :: 0 <= j < 16 ==> block[0] <= Alpha(px, j) <= block[1])
      && (exists j :: 0 <= j < 16 && Alpha(px, j) == block[0])
      && (exists j :: 0 <= j < 16 && Alpha(px, j) == block[1])
  {
    EndpointBytes(px);
    AlphaRangeAttained(px);
  }

  /** Bytes 0 and 1 of an encoded block are the alpha accumulators. */
  lemma EndpointBytes(px: seq<u8>)
    requires |px| == 64
    ensures EncodeDxt5(px)[0] == ScanPixels(px, 16).minA
    ensures EncodeDxt5(px)[1] == ScanPixels(px, 16).maxA
  {
  }

  /** Over a whole block the alpha accumulators are the least and the
      greatest alpha, each taken by some pixel. */
  lemma AlphaRangeAttained(px: seq<u8>)
    requires |px| == 64
    ensures var b := ScanPixels(px, 16);
      && (forall j :: 0 <= j < 16 ==> b.minA <= Alpha(px, j) <= b.maxA)
      && (exists j :: 0 <= j < 16 && Alpha(px, j) == b.minA)
      && (exists j :: 0 <= j < 16 && Alpha(px, j) == b.maxA)
  {
    var b := ScanPixels(px, 16);
    ScanAlphaBounds(px, 16);
    assert b.minA <= Alpha(px, 0) <= b.maxA;
  }

  /** An alpha that is an entry of the block's palette (the least or
      greatest alpha of the block, 0 or 255) decodes unchanged. */
  lemma Dxt5ExactAlpha(px: seq<u8>, prior: seq<u8>, s: nat)
    requires |px| == 64 && |prior| == 64 && s < 16
    requires var b := ScanPixels(px, 16);
      var a := Alpha(px, Mirror(s));
      a == b.minA || a == b.maxA || a == 0 || a == 255
    ensures DecodeDxt5(EncodeDxt5(px), prior)[4 * s + 3] == Alpha(px, Mirror(s))
  {
    BlockPaletteHasExtremes(px);
    Dxt5AlphaRoundTrip(px, prior, s);
  }

  /** Colour round trip: the colour bytes of slot s are those of the entry of
      the alpha-suppressed DXT1 palette nearest to source pixel Mirror(s). */
  lemma Dxt5ColourRoundTrip(px: seq<u8>, prior: seq<u8>, s: nat, ch: nat)
    requires |px| == 64 && |prior| == 64 && s < 16 && ch < 3
    ensures var (c0, c1) := Endpoints(px, true);
      var pal := Dxt1Palette(c0, c1);
      var k := NearestColor(Pixel(px, Mirror(s)), pal);
      DecodeDxt5(EncodeDxt5(px), prior)[4 * s + ch] == pal[4 * k + ch]
  {
    var (c0, c1) := Endpoints(px, true);
    var pal := Dxt1Palette(c0, c1);
    var k := NearestColor(Pixel(px, Mirror(s)), pal);
    var block := EncodeDxt5(px);
    BlockColour(AlphaHeader(px), EncodeDxt1(px, true), prior, Dxt5Alphas(block), s, ch);
    Dxt1RoundTrip(px, true, s);
    EntryByte(DecodeDxt1(EncodeDxt1(px, true)), pal, s, k, ch);
  }
}

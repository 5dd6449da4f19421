/** What whole-texture decompress gives back for a texture compress made:
    every pixel comes back as the block codec's estimate of that same
    pixel, chosen against the palette of the block that holds it. */
module ImageProps {
  import opened Bytes
  import opened Palette
  import opened Nearest
  import opened Dxt1
  import opened Dxt1Props
  import opened Dxt3
  import opened Dxt5
  import opened Dxt5Props
  import opened Grid
  import opened Tiler

  /** Reading slot s from the mirrored end of its row and mirroring again
      gives slot s back. */
  lemma MirrorTwice(s: nat)
    requires s < 16
    ensures Mirror(Mirror(s)) == s
  {
    var m := Mirror(s);
    assert s == 4 * (s / 4) + s % 4;
    assert Mirror(m) == 4 * (m / 4) + 3 - m % 4;
  }

  /** The RGBA block compress builds for the block holding pixel p. */
  function HomeBlock(width: nat, height: nat, pixels: seq<u8>, p: nat): (g: seq<u8>)
    requires ValidSize(width, height) && |pixels| == width * height * 4 && p < width * height
    ensures |g| == 64
  {
    PixelDecomposition(width, height, p);
    Gather(width, height, pixels, BlockX(width, p), BlockY(width, p))
  }

  /** Pixel p sits in its block's RGBA buffer at the mirror of its slot. */
  lemma HomeBlockHoldsPixel(width: nat, height: nat, pixels: seq<u8>, p: nat)
    requires ValidSize(width, height) && |pixels| == width * height * 4 && p < width * height
    ensures Pixel(HomeBlock(width, height, pixels, p), Mirror(SlotOf(width, p))) == pixels[4 * p .. 4 * p + 4]
  {
    PixelDecomposition(width, height, p);
    var gx, gy, s := BlockX(width, p), BlockY(width, p), SlotOf(width, p);
    var g := HomeBlock(width, height, pixels, p);
    MirrorTwice(s);
    var m := Mirror(s);
    forall k | 4 * m <= k < 4 * m + 4
      ensures g[k] == pixels[4 * p + (k - 4 * m)]
    {
      GatherAt(width, height, pixels, gx, gy, m, k - 4 * m);
    }
  }

  /** In particular, pixel p's alpha is the alpha of that slot. */
  lemma HomeBlockAlpha(width: nat, height: nat, pixels: seq<u8>, p: nat)
    requires ValidSize(width, height) && |pixels| == width * height * 4 && p < width * height
    ensures Alpha(HomeBlock(width, height, pixels, p), Mirror(SlotOf(width, p))) == pixels[4 * p + 3]
  {
    HomeBlockHoldsPixel(width, height, pixels, p);
    var g := HomeBlock(width, height, pixels, p);
    assert Pixel(g, Mirror(SlotOf(width, p)))[3] == pixels[4 * p .. 4 * p + 4][3];
  }

  /** The bytes compress gives for any block codec, split back into blocks
      by decompress, hand each block to the decoder exactly as the encoder
      produced it: byte c of pixel p is byte c of slot SlotOf(p) of the
      decoded home block of p. */
  lemma CodecRoundTrip(width: nat, height: nat, pixels: seq<u8>, encode: seq<u8> --> seq<u8>,
                       decode: seq<u8> --> seq<u8>, size: nat, p: nat, c: nat)
    requires ValidSize(width, height) && |pixels| == width * height * 4 && p < width * height && c < 4
    requires BlockEncoder(encode, size) && BlockDecoder(decode, size)
    ensures var data := EncodedBlocks(width, height, pixels, encode, size);
      DecodedPixels(width, height, data, decode, size)[4 * p + c]
        == decode(encode(HomeBlock(width, height, pixels, p)))[4 * SlotOf(width, p) + c]
  {
    var data := EncodedBlocks(width, height, pixels, encode, size);
    var n := BlockCount(width, height);
    var compressed := CompressedBlocks(width, height, pixels, encode, size);
    var decoded := DecodedBlocks(data, decode, size, n);
    PixelDecomposition(width, height, p);
    var gx, gy := BlockX(width, p), BlockY(width, p);
    var i := BlockOf(width, p);
    BlockNumberInverse(width, height, gx, gy);
    UnblockAt(width, height, decoded, 4 * p + c);
    assert (4 * p + c) / 4 == p && (4 * p + c) % 4 == c;
    FlattenSlice(compressed, size, i);
    assert BlockData(data, size, n, i) == compressed[i];
    assert compressed[i] == CompressedBlock(width, height, pixels, encode, size, i);
    assert decoded[i] == DecodedBlock(data, decode, size, n, i);
  }

  /** For a format's own codec: both entry points succeed, and byte c of
      decoded pixel p is byte c of slot SlotOf(p) of the format's block
      decoder applied to its block encoder on p's home block. */
  lemma PixelRoundTrip(width: nat, height: nat, pixels: seq<u8>, f: Format, p: nat, c: nat)
    requires ValidSize(width, height) && |pixels| == width * height * 4 && p < width * height && c < 4
    ensures EncodeImage(width, height, pixels, f).Ok?
    ensures var data := EncodeImage(width, height, pixels, f).value;
      && DecodeImage(width, height, data, f).Ok?
      && DecodeImage(width, height, data, f).value[4 * p + c]
           == DecodeBlock(f, EncodeBlock(f, HomeBlock(width, height, pixels, p)))[4 * SlotOf(width, p) + c]
  {
    var g := HomeBlock(width, height, pixels, p);
    CodecRoundTrip(width, height, pixels, Encoder(f), Decoder(f), BlockSize(f), p, c);
    var block := EncodeBlock(f, g);
    assert Encoder(f)(g) == block;
    assert Decoder(f)(block) == DecodeBlock(f, block);
  }

  /** Byte c of slot s of an RGBA block. */
  function Channel(rgba: seq<u8>, s: nat, c: nat): u8
    requires 4 * s + c < |rgba|
  {
    rgba[4 * s + c]
  }

  /** Channel c of what `decode` gives back for what `encode` made of any
      RGBA block g, read at slot s, is `estimate` of g at the mirrored slot
      (the source pixel compress put there). The link is made only where
      such a round trip is in view. */
  ghost predicate KeepsChannel(encode: seq<u8> --> seq<u8>, decode: seq<u8> --> seq<u8>, size: nat,
                               c: nat, estimate: (seq<u8>, nat) --> u8)
  {
    && BlockEncoder(encode, size) && BlockDecoder(decode, size) && c < 4
    && (forall g: seq<u8>, q: nat :: |g| == 64 && q < 16 ==> estimate.requires(g, q))
    && (forall g: seq<u8>, s: nat {:trigger Channel(decode(encode(g)), s, c)} :: |g| == 64 && s < 16 ==>
          Channel(decode(encode(g)), s, c) == estimate(g, Mirror(s)))
  }

  /** Whatever a block codec keeps of channel c of each source pixel of a
      block, compress followed by decompress keeps of channel c of each
      pixel of the texture. */
  lemma ImageChannel(width: nat, height: nat, pixels: seq<u8>, encode: seq<u8> --> seq<u8>,
                     decode: seq<u8> --> seq<u8>, size: nat, c: nat, estimate: (seq<u8>, nat) --> u8, p: nat)
    requires ValidSize(width, height) && |pixels| == width * height * 4 && p < width * height
    requires KeepsChannel(encode, decode, size, c, estimate)
    ensures var data := EncodedBlocks(width, height, pixels, encode, size);
      DecodedPixels(width, height, data, decode, size)[4 * p + c]
        == estimate(HomeBlock(width, height, pixels, p), Mirror(SlotOf(width, p)))
  {
    var g := HomeBlock(width, height, pixels, p);
    var s := SlotOf(width, p);
    CodecRoundTrip(width, height, pixels, encode, decode, size, p, c);
    assert Channel(decode(encode(g)), s, c) == estimate(g, Mirror(s));
  }

  /** Channel ch of the entry of block g's four-colour (or three-colour)
      palette nearest to its source pixel q. */
  function NearestBlockColour(g: seq<u8>, forceNoAlpha: bool, q: nat, ch: nat): u8
    requires |g| == 64 && q < 16 && ch < 4
  {
    var (c0, c1) := Endpoints(g, forceNoAlpha);
    var pal := Dxt1Palette(c0, c1);
    pal[4 * NearestColor(Pixel(g, q), pal) + ch]
  }

  /** The DXT1 block codec gives each pixel back as its nearest palette
      entry, byte by byte. */
  lemma Dxt1BlockColour(g: seq<u8>, s: nat, ch: nat)
    requires |g| == 64 && s < 16 && ch < 4
    ensures Channel(DecodeBlock(DXT1, EncodeBlock(DXT1, g)), s, ch) == NearestBlockColour(g, false, Mirror(s), ch)
  {
    Dxt1RoundTrip(g, false, s);
    var decoded := DecodeDxt1(EncodeDxt1(g, false));
    assert decoded[4 * s + ch] == decoded[4 * s .. 4 * s + 4][ch];
  }

  /** The DXT1 block codec, as compress and decompress call it, keeps each
      channel as NearestBlockColour says. */
  lemma Dxt1KeepsColour(ch: nat)
    requires ch < 4
    ensures KeepsChannel(Encoder(DXT1), Decoder(DXT1), BlockSize(DXT1), ch,
                         (g: seq<u8>, q: nat) requires |g| == 64 && q < 16 => NearestBlockColour(g, false, q, ch))
  {
    var encode, decode := Encoder(DXT1), Decoder(DXT1);
    forall g: seq<u8>, s: nat | |g| == 64 && s < 16
      ensures Channel(decode(encode(g)), s, ch) == NearestBlockColour(g, false, Mirror(s), ch)
    {
      Dxt1BlockColour(g, s, ch);
      var block := EncodeBlock(DXT1, g);
      assert encode(g) == block;
      assert decode(block) == DecodeBlock(DXT1, block);
    }
  }

  /** Channel ch of pixel p after a DXT1 texture round trip. */
  lemma Dxt1ImageChannel(width: nat, height: nat, pixels: seq<u8>, p: nat, ch: nat)
    requires ValidSize(width, height) && |pixels| == width * height * 4 && p < width * height && ch < 4
    ensures EncodeImage(width, height, pixels, DXT1).Ok?
    ensures DecodeImage(width, height, EncodeImage(width, height, pixels, DXT1).value, DXT1).Ok?
    ensures var image := DecodeImage(width, height, EncodeImage(width, height, pixels, DXT1).value, DXT1).value;
      image[4 * p + ch] == NearestBlockColour(HomeBlock(width, height, pixels, p), false, Mirror(SlotOf(width, p)), ch)
  {
    var estimate := (g: seq<u8>, q: nat) requires |g| == 64 && q < 16 => NearestBlockColour(g, false, q, ch);
    Dxt1KeepsColour(ch);
    ImageChannel(width, height, pixels, Encoder(DXT1), Decoder(DXT1), BlockSize(DXT1), ch, estimate, p);
  }

  /** DXT1 texture round trip: each pixel comes back as the entry of its
      block's four-colour or three-colour palette nearest to it. */
  lemma Dxt1ImageRoundTrip(width: nat, height: nat, pixels: seq<u8>, p: nat)
    requires ValidSize(width, height) && |pixels| == width * height * 4 && p < width * height
    ensures EncodeImage(width, height, pixels, DXT1).Ok?
    ensures DecodeImage(width, height, EncodeImage(width, height, pixels, DXT1).value, DXT1).Ok?
    ensures var image := DecodeImage(width, height, EncodeImage(width, height, pixels, DXT1).value, DXT1).value;
      var (c0, c1) := Endpoints(HomeBlock(width, height, pixels, p), false);
      var pal := Dxt1Palette(c0, c1);
      var color := pixels[4 * p .. 4 * p + 4];
      var k := NearestColor(color, pal);
      && k < 4
      && image[4 * p .. 4 * p + 4] == Entry(pal, k)
      && (forall k' :: 0 <= k' < 4 ==> SquaredDistance(color, pal, k) <= SquaredDistance(color, pal, k'))
      && (forall k' :: 0 <= k' < k ==> SquaredDistance(color, pal, k) < SquaredDistance(color, pal, k'))
  {
    var image := DecodeImage(width, height, EncodeImage(width, height, pixels, DXT1).value, DXT1).value;
    var g := HomeBlock(width, height, pixels, p);
    var q := Mirror(SlotOf(width, p));
    var (c0, c1) := Endpoints(g, false);
    var pal := Dxt1Palette(c0, c1);
    var k := NearestColor(pixels[4 * p .. 4 * p + 4], pal);
    HomeBlockHoldsPixel(width, height, pixels, p);
    assert Pixel(g, q) == pixels[4 * p .. 4 * p + 4];
    assert k < 4;
    forall ch | 0 <= ch < 4
      ensures image[4 * p .. 4 * p + 4][ch] == Entry(pal, k)[ch]
    {
      Dxt1ImageChannel(width, height, pixels, p, ch);
      assert NearestBlockColour(g, false, q, ch) == pal[4 * k + ch];
    }
  }

  /** The DXT3 block codec keeps the high nibble of each alpha. */
  lemma Dxt3BlockAlpha(g: seq<u8>, s: nat)
    requires |g| == 64 && s < 16
    ensures Channel(DecodeBlock(DXT3, EncodeBlock(DXT3, g)), s, 3) == HighNibble(Alpha(g, Mirror(s)))
  {
    Dxt3AlphaRoundTrip(g, Blank(), s);
  }

  /** The same, for the DXT3 block codec as compress and decompress call it. */
  lemma Dxt3KeepsAlphaNibble()
    ensures KeepsChannel(Encoder(DXT3), Decoder(DXT3), BlockSize(DXT3), 3,
                         (g: seq<u8>, q: nat) requires |g| == 64 && q < 16 => HighNibble(Alpha(g, q)))
  {
    var encode, decode := Encoder(DXT3), Decoder(DXT3);
    forall g: seq<u8>, s: nat | |g| == 64 && s < 16
      ensures Channel(decode(encode(g)), s, 3) == HighNibble(Alpha(g, Mirror(s)))
    {
      Dxt3BlockAlpha(g, s);
      var block := EncodeBlock(DXT3, g);
      assert encode(g) == block;
      assert decode(block) == DecodeBlock(DXT3, block);
    }
  }

  /** DXT3 texture round trip, alpha: each pixel's alpha comes back with its
      low four bits cleared. */
  lemma Dxt3ImageAlpha(width: nat, height: nat, pixels: seq<u8>, p: nat)
    requires ValidSize(width, height) && |pixels| == width * height * 4 && p < width * height
    ensures EncodeImage(width, height, pixels, DXT3).Ok?
    ensures DecodeImage(width, height, EncodeImage(width, height, pixels, DXT3).value, DXT3).Ok?
    ensures var image := DecodeImage(width, height, EncodeImage(width, height, pixels, DXT3).value, DXT3).value;
      image[4 * p + 3] == HighNibble(pixels[4 * p + 3])
  {
    var estimate := (g: seq<u8>, q: nat) requires |g| == 64 && q < 16 => HighNibble(Alpha(g, q));
    Dxt3KeepsAlphaNibble();
    ImageChannel(width, height, pixels, Encoder(DXT3), Decoder(DXT3), BlockSize(DXT3), 3, estimate, p);
    HomeBlockAlpha(width, height, pixels, p);
  }

  /** The alpha a DXT5 block gives back for source pixel q: the entry of
      the block's alpha palette nearest to it. */
  function NearestBlockAlpha(g: seq<u8>, q: nat): u8
    requires |g| == 64 && q < 16
  {
    var pal := BlockAlphaPalette(g);
    pal[NearestAlpha(Alpha(g, q), pal)]
  }

  /** The DXT5 block codec gives each alpha back as its nearest palette
      entry. */
  lemma Dxt5BlockAlpha(g: seq<u8>, s: nat)
    requires |g| == 64 && s < 16
    ensures Channel(DecodeBlock(DXT5, EncodeBlock(DXT5, g)), s, 3) == NearestBlockAlpha(g, Mirror(s))
  {
    Dxt5AlphaRoundTrip(g, Blank(), s);
  }

  /** The same, for the DXT5 block codec as compress and decompress call it. */
  lemma Dxt5KeepsNearestAlpha()
    ensures KeepsChannel(Encoder(DXT5), Decoder(DXT5), BlockSize(DXT5), 3,
                         (g: seq<u8>, q: nat) requires |g| == 64 && q < 16 => NearestBlockAlpha(g, q))
  {
    var encode, decode := Encoder(DXT5), Decoder(DXT5);
    forall g: seq<u8>, s: nat | |g| == 64 && s < 16
      ensures Channel(decode(encode(g)), s, 3) == NearestBlockAlpha(g, Mirror(s))
    {
      Dxt5BlockAlpha(g, s);
      var block := EncodeBlock(DXT5, g);
      assert encode(g) == block;
      assert decode(block) == DecodeBlock(DXT5, block);
    }
  }

  /** DXT5 texture round trip, alpha: each pixel's alpha comes back as the
      entry of its block's alpha palette nearest to it, the first such entry
      on a tie. */
  lemma Dxt5ImageAlpha(width: nat, height: nat, pixels: seq<u8>, p: nat)
    requires ValidSize(width, height) && |pixels| == width * height * 4 && p < width * height
    ensures EncodeImage(width, height, pixels, DXT5).Ok?
    ensures DecodeImage(width, height, EncodeImage(width, height, pixels, DXT5).value, DXT5).Ok?
    ensures var image := DecodeImage(width, height, EncodeImage(width, height, pixels, DXT5).value, DXT5).value;
      var pal := BlockAlphaPalette(HomeBlock(width, height, pixels, p));
      var a := pixels[4 * p + 3];
      var k := NearestAlpha(a, pal);
      && image[4 * p + 3] == pal[k]
      && (forall j :: 0 <= j < 8 ==> Abs(a as int - pal[k]) <= Abs(a as int - pal[j]))
      && (forall j :: 0 <= j < k ==> Abs(a as int - pal[k]) < Abs(a as int - pal[j]))
  {
    var estimate := (g: seq<u8>, q: nat) requires |g| == 64 && q < 16 => NearestBlockAlpha(g, q);
    Dxt5KeepsNearestAlpha();
    ImageChannel(width, height, pixels, Encoder(DXT5), Decoder(DXT5), BlockSize(DXT5), 3, estimate, p);
    HomeBlockAlpha(width, height, pixels, p);
  }

  /** The DXT3 and DXT5 block codecs give each colour back as its nearest
      entry of the alpha-suppressed four-colour palette. */
  lemma BlockNearestColour(f: Format, g: seq<u8>, s: nat, ch: nat)
    requires f != DXT1 && |g| == 64 && s < 16 && ch < 3
    ensures Channel(DecodeBlock(f, EncodeBlock(f, g)), s, ch) == NearestBlockColour(g, true, Mirror(s), ch)
  {
    if f == DXT3 {
      Dxt3ColourRoundTrip(g, Blank(), s, ch);
    } else {
      Dxt5ColourRoundTrip(g, Blank(), s, ch);
    }
  }

  /** The same, for those block codecs as compress and decompress call them. */
  lemma KeepsNearestColour(f: Format, ch: nat)
    requires f != DXT1 && ch < 3
    ensures KeepsChannel(Encoder(f), Decoder(f), BlockSize(f), ch,
                         (g: seq<u8>, q: nat) requires |g| == 64 && q < 16 => NearestBlockColour(g, true, q, ch))
  {
    var encode, decode := Encoder(f), Decoder(f);
    forall g: seq<u8>, s: nat | |g| == 64 && s < 16
      ensures Channel(decode(encode(g)), s, ch) == NearestBlockColour(g, true, Mirror(s), ch)
    {
      BlockNearestColour(f, g, s, ch);
      var block := EncodeBlock(f, g);
      assert encode(g) == block;
      assert decode(block) == DecodeBlock(f, block);
    }
  }

  /** DXT3 and DXT5 texture round trip, colour: each pixel's red, green and
      blue come back as those of the entry of its block's four-colour palette
      nearest to it. */
  lemma ImageColour(width: nat, height: nat, pixels: seq<u8>, f: Format, p: nat, ch: nat)
    requires ValidSize(width, height) && |pixels| == width * height * 4 && p < width * height
    requires f != DXT1 && ch < 3
    ensures EncodeImage(width, height, pixels, f).Ok?
    ensures DecodeImage(width, height, EncodeImage(width, height, pixels, f).value, f).Ok?
    ensures var image := DecodeImage(width, height, EncodeImage(width, height, pixels, f).value, f).value;
      var (c0, c1) := Endpoints(HomeBlock(width, height, pixels, p), true);
      var pal := Dxt1Palette(c0, c1);
      var k := NearestColor(pixels[4 * p .. 4 * p + 4], pal);
      image[4 * p + ch] == pal[4 * k + ch]
  {
    var estimate := (g: seq<u8>, q: nat) requires |g| == 64 && q < 16 => NearestBlockColour(g, true, q, ch);
    KeepsNearestColour(f, ch);
    ImageChannel(width, height, pixels, Encoder(f), Decoder(f), BlockSize(f), ch, estimate, p);
    HomeBlockHoldsPixel(width, height, pixels, p);
  }
}

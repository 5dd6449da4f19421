/** The DXT3 (BC2) block codec: 8 bytes of explicit 4-bit alpha, two pixels
    per byte, followed by a DXT1 colour block encoded with alpha suppressed. */
module Dxt3 {
  import opened Bytes
  import opened Palette
  import opened Nearest
  import opened Dxt1
  import opened Dxt1Props
  import opened Composite

  /** `a & 0xF0`: the top four bits of an alpha, in place. */
  function HighNibble(a: u8): u8
  {
    a / 16 * 16
  }

  /** Byte 2i of the alpha half: the top bits of pixel 4i + 2's alpha in the
      high nibble, those of pixel 4i + 3 in the low nibble. */
  function AlphaByteLow(px: seq<u8>, i: nat): u8
    requires |px| == 64 && i < 4
  {
    HighNibble(Alpha(px, 4 * i + 2)) + Alpha(px, 4 * i + 3) / 16
  }

  /** Byte 2i + 1: pixel 4i + 1 in the low nibble, pixel 4i in the high. */
  function AlphaByteHigh(px: seq<u8>, i: nat): u8
    requires |px| == 64 && i < 4
  {
    Alpha(px, 4 * i + 1) / 16 + HighNibble(Alpha(px, 4 * i))
  }

  /** The 8 explicit-alpha bytes compressBlockDXT3 writes. */
  function ExplicitAlpha(px: seq<u8>): (bytes: seq<u8>)
    requires |px| == 64
    ensures |bytes| == 8
  {
    [AlphaByteLow(px, 0), AlphaByteHigh(px, 0), AlphaByteLow(px, 1), AlphaByteHigh(px, 1),
     AlphaByteLow(px, 2), AlphaByteHigh(px, 2), AlphaByteLow(px, 3), AlphaByteHigh(px, 3)]
  }

  /** Bytes 2i and 2i + 1 of the alpha half. */
  lemma ExplicitAlphaAt(px: seq<u8>, i: nat)
    requires |px| == 64 && i < 4
    ensures ExplicitAlpha(px)[2 * i] == AlphaByteLow(px, i)
    ensures ExplicitAlpha(px)[2 * i + 1] == AlphaByteHigh(px, i)
  {
    if i == 0 {} else if i == 1 {} else if i == 2 {} else {}
  }

  /** The 16 bytes compressBlockDXT3 writes. */
  function EncodeDxt3(px: seq<u8>): (block: seq<u8>)
    requires |px| == 64
    ensures |block| == 16
  {
    ExplicitAlpha(px) + EncodeDxt1(px, true)
  }

  /** The alpha decompressBlockDXT3 gives slot s: `(data[i] & 0x0f) << 4` for
      the even slot 2i and `data[i] & 0xf0` for the odd slot 2i + 1. */
  function Dxt3Alpha(data: seq<u8>, s: nat): (a: u8)
    requires s < 16
    ensures a % 16 == 0
  {
    var b := ByteAt(data, s / 2);
    if s % 2 == 0 then b % 16 * 16 else HighNibble(b)
  }

  /** The 16 decoded alphas, in slot order. */
  function Dxt3Alphas(data: seq<u8>): (alphas: seq<u8>)
    ensures |alphas| == 16
  {
    seq(16, s requires 0 <= s < 16 => Dxt3Alpha(data, s))
  }

  /** The 64 bytes decompressBlockDXT3 leaves in `out`, which held `prior`. */
  function DecodeDxt3(data: seq<u8>, prior: seq<u8>): (rgba: seq<u8>)
    requires |prior| == 64
    ensures |rgba| == 64
  {
    SetAlphas(ColourTail(data, prior), Dxt3Alphas(data))
  }

  /** compressBlockDXT3: the colour block is first written to bytes 0-7, then
      moved two bytes at a time to bytes 8-15 while the alpha bytes take its
      place. */
  method CompressBlockDXT3(pixels: seq<u8>, out: array<u8>)
    requires |pixels| == 64 && out.Length >= 16
    modifies out
    ensures out[..16] == EncodeDxt3(pixels)
    ensures out[16..] == old(out[16..])
  {
    CompressBlockDXT1(pixels, out, true);
    MoveColourAndStoreAlpha(pixels, out);
  }

  /** The loop of compressBlockDXT3: bytes 2i and 2i + 1 of the colour block
      move to 8 + 2i and 9 + 2i, and the alpha bytes take their place. */
  method MoveColourAndStoreAlpha(pixels: seq<u8>, out: array<u8>)
    requires |pixels| == 64 && out.Length >= 16
    modifies out
    ensures out[..16] == ExplicitAlpha(pixels) + old(out[..8])
    ensures out[16..] == old(out[16..])
  {
    ghost var colour := out[..8];
    ghost var alpha := ExplicitAlpha(pixels);
    for i := 0 to 4
      invariant forall k :: 0 <= k < 2 * i ==> out[k] == alpha[k]
      invariant forall k :: 0 <= k < 2 * i ==> out[8 + k] == colour[k]
      invariant forall k :: 2 * i <= k < 8 ==> out[k] == colour[k]
      invariant forall k :: 16 <= k < out.Length ==> out[k] == old(out[k])
    {
      ExplicitAlphaAt(pixels, i);
      out[8 + i * 2] := out[i * 2];
      out[9 + i * 2] := out[i * 2 + 1];
      out[i * 2 + 0] := AlphaByteLow(pixels, i);
      out[i * 2 + 1] := AlphaByteHigh(pixels, i);
    }
    assert out[..16] == alpha + colour;
  }

  /** decompressBlockDXT3: decode the colour tail into `out`, then overwrite
      the alpha of two slots per input byte. */
  method DecompressBlockDXT3(data: seq<u8>, out: array<u8>)
    requires out.Length == 64
    modifies out
    ensures out[..] == DecodeDxt3(data, old(out[..]))
  {
    SliceTail(data);
    var _ := DecompressBlockDXT1(Slice(data, 8, 16), out);
    ghost var colour := out[..];
    ghost var alphas := Dxt3Alphas(data);
    for i := 0 to 8
      invariant forall k :: 0 <= k < 64 ==>
        out[k] == if k % 4 == 3 && k / 4 < 2 * i then alphas[k / 4] else colour[k]
    {
      var b := ByteAt(data, i);
      out[i * 8 + 3] := b % 16 * 16;
      out[i * 8 + 7] := b / 16 * 16;
    }
  }

  /** The encoded block splits into its explicit-alpha half and the
      alpha-suppressed DXT1 colour block. */
  lemma EncodeDxt3Halves(px: seq<u8>)
    requires |px| == 64
    ensures EncodeDxt3(px)[..8] == ExplicitAlpha(px)
    ensures EncodeDxt3(px)[8..16] == EncodeDxt1(px, true)
  {
  }

  /** The decoded alphas depend on the first 8 bytes only. */
  lemma Dxt3AlphaPrefix(data: seq<u8>, s: nat)
    requires |data| >= 8 && s < 16
    ensures Dxt3Alpha(data, s) == Dxt3Alpha(data[..8], s)
  {
  }

  /** A byte assembled from two nibbles splits back into them. */
  lemma Nibbles(hi: nat, lo: nat)
    requires hi < 16 && lo < 16
    ensures (hi * 16 + lo) % 16 == lo && (hi * 16 + lo) / 16 == hi
  {
    DivModUnique(hi * 16 + lo, 16, hi, lo);
  }

  /** The four slots stored in bytes 2i and 2i + 1 decode to the alphas of
      pixels 4i + 3, 4i + 2, 4i + 1 and 4i, top four bits kept. */
  lemma ExplicitAlphaRow(px: seq<u8>, i: nat)
    requires |px| == 64 && i < 4
    ensures Dxt3Alpha(ExplicitAlpha(px), 4 * i) == HighNibble(Alpha(px, 4 * i + 3))
    ensures Dxt3Alpha(ExplicitAlpha(px), 4 * i + 1) == HighNibble(Alpha(px, 4 * i + 2))
    ensures Dxt3Alpha(ExplicitAlpha(px), 4 * i + 2) == HighNibble(Alpha(px, 4 * i + 1))
    ensures Dxt3Alpha(ExplicitAlpha(px), 4 * i + 3) == HighNibble(Alpha(px, 4 * i))
  {
    var alpha := ExplicitAlpha(px);
    ExplicitAlphaAt(px, i);
    Nibbles(Alpha(px, 4 * i + 2) / 16, Alpha(px, 4 * i + 3) / 16);
    Nibbles(Alpha(px, 4 * i) / 16, Alpha(px, 4 * i + 1) / 16);
    assert (4 * i) / 2 == 2 * i && (4 * i + 1) / 2 == 2 * i;
    assert (4 * i + 2) / 2 == 2 * i + 1 && (4 * i + 3) / 2 == 2 * i + 1;
  }

  /** Decoding the explicit-alpha bytes gives back each pixel's alpha with
      its low four bits cleared, with slot s reading pixel Mirror(s). */
  lemma ExplicitAlphaDecodes(px: seq<u8>, s: nat)
    requires |px| == 64 && s < 16
    ensures Dxt3Alpha(ExplicitAlpha(px), s) == HighNibble(Alpha(px, Mirror(s)))
  {
    var i, j := s / 4, s % 4;
    ExplicitAlphaRow(px, i);
    assert s == 4 * i + j && Mirror(s) == 4 * i + 3 - j by {
      DivModUnique(Mirror(s), 4, i, 3 - j);
    }
    if j == 0 {
      assert Mirror(s) == 4 * i + 3;
    } else if j == 1 {
      assert Mirror(s) == 4 * i + 2;
    } else if j == 2 {
      assert Mirror(s) == 4 * i + 1;
    } else {
      assert Mirror(s) == 4 * i;
    }
  }

  /** Alpha round trip: every decoded alpha is the source alpha of pixel
      Mirror(s) with its low four bits cleared, `a & 0xF0`. */
  lemma Dxt3AlphaRoundTrip(px: seq<u8>, prior: seq<u8>, s: nat)
    requires |px| == 64 && |prior| == 64 && s < 16
    ensures DecodeDxt3(EncodeDxt3(px), prior)[4 * s + 3] == HighNibble(Alpha(px, Mirror(s)))
  {
    var block := EncodeDxt3(px);
    SetAlphasAt(ColourTail(block, prior), Dxt3Alphas(block), s, 3);
    EncodeDxt3Halves(px);
    Dxt3AlphaPrefix(block, s);
    ExplicitAlphaDecodes(px, s);
  }

  /** The colour bytes of a DXT3 block decode exactly as the alpha-suppressed
      DXT1 block they were encoded as. */
  lemma Dxt3ColourIsDxt1(px: seq<u8>, prior: seq<u8>, s: nat, ch: nat)
    requires |px| == 64 && |prior| == 64 && s < 16 && ch < 3
    ensures DecodeDxt3(EncodeDxt3(px), prior)[4 * s + ch] == DecodeDxt1(EncodeDxt1(px, true))[4 * s + ch]
  {
    var block := EncodeDxt3(px);
    EncodeDxt3Halves(px);
    SetAlphasAt(ColourTail(block, prior), Dxt3Alphas(block), s, ch);
  }

  /** Colour round trip: the colour bytes of slot s are those of the entry of
      the alpha-suppressed DXT1 palette nearest to source pixel Mirror(s). */
  lemma Dxt3ColourRoundTrip(px: seq<u8>, prior: seq<u8>, s: nat, ch: nat)
    requires |px| == 64 && |prior| == 64 && s < 16 && ch < 3
    ensures var (c0, c1) := Endpoints(px, true);
      var pal := Dxt1Palette(c0, c1);
      var k := NearestColor(Pixel(px, Mirror(s)), pal);
      DecodeDxt3(EncodeDxt3(px), prior)[4 * s + ch] == pal[4 * k + ch]
  {
    var (c0, c1) := Endpoints(px, true);
    var pal := Dxt1Palette(c0, c1);
    var k := NearestColor(Pixel(px, Mirror(s)), pal);
    Dxt1RoundTrip(px, true, s);
    Dxt3ColourIsDxt1(px, prior, s, ch);
    EntryByte(DecodeDxt1(EncodeDxt1(px, true)), pal, s, k, ch);
  }
}

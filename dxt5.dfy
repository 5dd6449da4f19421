/** The DXT5 (BC3) block codec: an alpha block of two endpoint alphas and
    sixteen 3-bit indices into an 8-entry alpha palette, followed by a DXT1
    colour block encoded with alpha suppressed. */
module Dxt5 {
  import opened Bytes
  import opened Palette
  import opened Nearest
  import opened Dxt1
  import opened Composite

  /** A 3-bit alpha index. */
  type Code3 = x: nat | x < 8

  /** The alpha palette the compressor searches and stores: built from the
      minimum alpha of the block as alpha0 and the maximum as alpha1. */
  function BlockAlphaPalette(px: seq<u8>): (lookup: seq<u8>)
    requires |px| == 64
    ensures |lookup| == 8
  {
    var s := ScanPixels(px, 16);
    AlphaPalette(s.minA, s.maxA)
  }

  /** The index the compressor picks for each pixel, in pixel order. */
  function AlphaCodes(px: seq<u8>, alphaLookup: seq<u8>): (codes: seq<Code3>)
    requires |px| == 64 && |alphaLookup| == 8
    ensures |codes| == 16
  {
    seq(16, j requires 0 <= j < 16 => NearestAlpha(Alpha(px, j), alphaLookup))
  }

  /** Eight 3-bit fields packed into 24 bits, field t at bits 3t to 3t + 2.
      The source combines the shifted indices with `|`; the fields do not
      overlap, so this is their sum. */
  function Pack24(f: seq<Code3>): (v: nat)
    requires |f| == 8
    ensures v < 0x100_0000
  {
    f[0] as int + f[1] as int * 8 + f[2] as int * 64 + f[3] as int * 512
      + f[4] as int * 4096 + f[5] as int * 32768 + f[6] as int * 262144 + f[7] as int * 2097152
  }

  /** `out234` (g = 0) and `out567` (g = 1): the indices of rows 2g and
      2g + 1, each row's four indices in reverse order. */
  function Group(codes: seq<Code3>, g: nat): (v: nat)
    requires |codes| == 16 && g < 2
    ensures v < 0x100_0000
  {
    var b := 8 * g;
    Pack24([codes[b + 3], codes[b + 2], codes[b + 1], codes[b],
            codes[b + 7], codes[b + 6], codes[b + 5], codes[b + 4]])
  }

  /** The three little-endian bytes of a 24-bit group. */
  function GroupBytes(v: nat): (bytes: seq<u8>)
    requires v < 0x100_0000
    ensures |bytes| == 3
  {
    [v % 0x100, v / 0x100 % 0x100, v / 0x1_0000]
  }

  /** The 8 alpha bytes of a DXT5 block: the two endpoint alphas, then the
      two index groups. */
  function AlphaBlock(alpha0: u8, alpha1: u8, codes: seq<Code3>): (bytes: seq<u8>)
    requires |codes| == 16
    ensures |bytes| == 8
  {
    [alpha0, alpha1] + GroupBytes(Group(codes, 0)) + GroupBytes(Group(codes, 1))
  }

  /** The alpha half compressBlockDXT5 writes: the least and greatest alpha
      of the block and the nearest palette index of every pixel's alpha. */
  function AlphaHeader(px: seq<u8>): (bytes: seq<u8>)
    requires |px| == 64
    ensures |bytes| == 8
  {
    var s := ScanPixels(px, 16);
    AlphaBlock(s.minA, s.maxA, AlphaCodes(px, BlockAlphaPalette(px)))
  }

  /** The 16 bytes compressBlockDXT5 writes: the alpha half, then the DXT1
      colour block with alpha suppressed. */
  function EncodeDxt5(px: seq<u8>): (block: seq<u8>)
    requires |px| == 64
    ensures |block| == 16
  {
    AlphaHeader(px) + EncodeDxt1(px, true)
  }

  /** Field t of a group as decompressBlockDXT5 extracts it from the group's
      three bytes b0, b1, b2 (fields 2 and 5 straddle a byte boundary). */
  function Field(b0: u8, b1: u8, b2: u8, t: nat): (code: Code3)
    requires t < 8
  {
    if t == 0 then b0 % 8
    else if t == 1 then b0 / 8 % 8
    else if t == 2 then b1 % 2 * 4 + b0 / 64
    else if t == 3 then b1 / 2 % 8
    else if t == 4 then b1 / 16 % 8
    else if t == 5 then b2 % 4 * 2 + b1 / 128
    else if t == 6 then b2 / 4 % 8
    else b2 / 32
  }

  /** The alpha index decompressBlockDXT5 reads for slot s: field s % 8 of
      the group in bytes 2-4 (slots 0-7) or 5-7 (slots 8-15). */
  function Dxt5Code(data: seq<u8>, s: nat): Code3
    requires s < 16
  {
    var b := 2 + 3 * (s / 8);
    Field(ByteAt(data, b), ByteAt(data, b + 1), ByteAt(data, b + 2), s % 8)
  }

  /** The alpha palette of the decompressor. With fewer than two input bytes
      the missing endpoints read as `undefined`: the comparison fails, every
      interpolated entry is NaN and is stored as 0, and so is a missing
      endpoint. */
  function Dxt5AlphaPalette(data: seq<u8>): (lookup: seq<u8>)
    ensures |lookup| == 8
  {
    if |data| >= 2 then AlphaPalette(data[0], data[1])
    else [ByteAt(data, 0), 0, 0, 0, 0, 0, 0, 255]
  }

  /** The 16 decoded alphas, in slot order. */
  function Dxt5Alphas(data: seq<u8>): (alphas: seq<u8>)
    ensures |alphas| == 16
  {
    seq(16, s requires 0 <= s < 16 => Dxt5AlphaPalette(data)[Dxt5Code(data, s)])
  }

  /** The 64 bytes decompressBlockDXT5 leaves in `out`, which held `prior`. */
  function DecodeDxt5(data: seq<u8>, prior: seq<u8>): (rgba: seq<u8>)
    requires |prior| == 64
    ensures |rgba| == 64
  {
    SetAlphas(ColourTail(data, prior), Dxt5Alphas(data))
  }

  /** compressBlockDXT5: the colour block is written to bytes 0-7 first
      and then moved up to make room for the alpha half. */
  method CompressBlockDXT5(pixels: seq<u8>, out: array<u8>)
    requires |pixels| == 64 && out.Length >= 16
    modifies out
    ensures out[..16] == EncodeDxt5(pixels)
    ensures out[16..] == old(out[16..])
  {
    CompressBlockDXT1(pixels, out, true);
    assert out[16..] == old(out[16..]) by {
      assert forall k :: 16 <= k < out.Length ==> out[k] == out[8..][k - 8];
    }
    CompressAlpha(pixels, out);
  }

  /** What compressBlockDXT5 does after compressBlockDXT1: the alpha range,
      the copy loop, and the alpha half. */
  method CompressAlpha(pixels: seq<u8>, out: array<u8>)
    requires |pixels| == 64 && out.Length >= 16
    modifies out
    ensures out[..16] == AlphaHeader(pixels) + old(out[..8])
    ensures out[16..] == old(out[16..])
  {
    ghost var before := out[..];
    var minAlpha, maxAlpha := AlphaRange(pixels);
    MoveColourUp(out);
    ghost var moved := out[..];
    StoreAlphaBlock(pixels, minAlpha, maxAlpha, out);
    Splice(before, moved, out[..]);
  }

  /** The part of compressBlockDXT5 after the copy loop: the endpoint alphas
      in bytes 0 and 1, the palette they span, the index of every pixel and
      the packed indices in bytes 2-7. */
  method StoreAlphaBlock(pixels: seq<u8>, minAlpha: u8, maxAlpha: u8, out: array<u8>)
    requires |pixels| == 64 && out.Length >= 16
    modifies out
    ensures out[..8] == AlphaBlock(minAlpha, maxAlpha, AlphaCodes(pixels, AlphaPalette(minAlpha, maxAlpha)))
    ensures out[8..] == old(out[8..])
  {
    out[0] := minAlpha;
    out[1] := maxAlpha;
    var alphaLookup := new u8[8];
    GenerateDXT5AlphaLookup(minAlpha, maxAlpha, alphaLookup);
    var alphaIndices := FindAlphaIndices(pixels, alphaLookup[..]);
    ghost var codes := alphaIndices[..];
    assert codes == AlphaCodes(pixels, AlphaPalette(minAlpha, maxAlpha));
    assert out[0] == minAlpha && out[1] == maxAlpha;
    StoreIndexGroups(alphaIndices, out);
    assert out[..8] == AlphaBlock(minAlpha, maxAlpha, codes);
  }

  /** Three states of a buffer of at least 16 bytes: the bytes 0-7 of the
      first are moved up to 8-15 in the second, and the third keeps bytes 8
      on of the second. */
  lemma Splice(before: seq<u8>, moved: seq<u8>, after: seq<u8>)
    requires |before| == |moved| == |after| >= 16
    requires moved[8..16] == before[..8] && moved[16..] == before[16..]
    requires after[8..] == moved[8..]
    ensures after[..16] == after[..8] + before[..8]
    ensures after[16..] == before[16..]
  {
    assert after[8..16] == moved[8..16];
    assert after[16..] == moved[16..];
  }

  /** The first loop of compressBlockDXT5: the least and greatest alpha,
      which are the alpha accumulators of the DXT1 scan. */
  method AlphaRange(pixels: seq<u8>) returns (minAlpha: u8, maxAlpha: u8)
    requires |pixels| == 64
    ensures minAlpha == ScanPixels(pixels, 16).minA
    ensures maxAlpha == ScanPixels(pixels, 16).maxA
  {
    minAlpha, maxAlpha := 255, 0;
    for i := 0 to 16
      invariant minAlpha == ScanPixels(pixels, i).minA
      invariant maxAlpha == ScanPixels(pixels, i).maxA
    {
      minAlpha := Min(pixels[i * 4 + 3], minAlpha);
      maxAlpha := Max(pixels[i * 4 + 3], maxAlpha);
    }
  }

  /** The copy loop: the colour block moves from bytes 0-7 to bytes 8-15. */
  method MoveColourUp(out: array<u8>)
    requires out.Length >= 16
    modifies out
    ensures out[8..16] == old(out[..8])
    ensures out[..8] == old(out[..8]) && out[16..] == old(out[16..])
  {
    for i := 0 to 8
      invariant forall k :: 0 <= k < 8 ==> out[k] == old(out[k])
      invariant forall k :: 8 <= k < 8 + i ==> out[k] == old(out[k - 8])
      invariant forall k :: 8 + i <= k < out.Length ==> out[k] == old(out[k])
    {
      out[i + 8] := out[i];
    }
  }

  /** The index loop: the nearest palette entry of every pixel's alpha. */
  method FindAlphaIndices(pixels: seq<u8>, alphaLookup: seq<u8>) returns (alphaIndices: array<Code3>)
    requires |pixels| == 64 && |alphaLookup| == 8
    ensures fresh(alphaIndices)
    ensures alphaIndices[..] == AlphaCodes(pixels, alphaLookup)
  {
    alphaIndices := new Code3[16];
    for i := 0 to 16
      invariant forall j :: 0 <= j < i ==> alphaIndices[j] == NearestAlpha(Alpha(pixels, j), alphaLookup)
    {
      var srcAlpha := pixels[i * 4 + 3];
      var nearestIndex := NearestAlphaIndex(srcAlpha, alphaLookup);
      alphaIndices[i] := nearestIndex;
    }
  }

  /** The packing of the indices into `out234` and `out567` and their bytes
      2-7 of the block. */
  method StoreIndexGroups(alphaIndices: array<Code3>, out: array<u8>)
    requires alphaIndices.Length == 16 && out.Length >= 16
    modifies out
    ensures out[..8] == AlphaBlock(old(out[0]), old(out[1]), alphaIndices[..])
    ensures out[8..] == old(out[8..])
  {
    var a: seq<int> := alphaIndices[..];
    var out234 := a[3] + a[2] * 8 + a[1] * 64 + a[0] * 512
      + a[7] * 4096 + a[6] * 32768 + a[5] * 262144 + a[4] * 2097152;
    var out567 := a[11] + a[10] * 8 + a[9] * 64 + a[8] * 512
      + a[15] * 4096 + a[14] * 32768 + a[13] * 262144 + a[12] * 2097152;
    assert out234 == Group(alphaIndices[..], 0) && out567 == Group(alphaIndices[..], 1);
    var bytes := GroupBytes(out234) + GroupBytes(out567);
    ghost var header := [out[0], out[1]];
    forall i | 0 <= i < 6 {
      out[2 + i] := bytes[i];
    }
    assert out[..8] == header + bytes;
  }

  /** decompressBlockDXT5: decode the colour tail into `out`, build the alpha
      palette from bytes 0 and 1, then set the alpha of every slot. The
      source writes the sixteen alphas one statement each; here they are
      one parallel assignment over the slots. */
  method DecompressBlockDXT5(data: seq<u8>, out: array<u8>)
    requires out.Length == 64
    modifies out
    ensures out[..] == DecodeDxt5(data, old(out[..]))
  {
    SliceTail(data);
    var _ := DecompressBlockDXT1(Slice(data, 8, 16), out);
    ghost var colour := out[..];
    var alphaLookup := new u8[8];
    if |data| >= 2 {
      GenerateDXT5AlphaLookup(data[0], data[1], alphaLookup);
    } else {
      var bytes := [ByteAt(data, 0), 0, 0, 0, 0, 0, 0, 255];
      forall i | 0 <= i < 8 {
        alphaLookup[i] := bytes[i];
      }
    }
    assert alphaLookup[..] == Dxt5AlphaPalette(data);
    forall k | 0 <= k < 64 && k % 4 == 3 {
      out[k] := alphaLookup[Dxt5Code(data, k / 4)];
    }
    ghost var alphas := Dxt5Alphas(data);
    assert forall k :: 0 <= k < 64 ==> out[k] == if k % 4 == 3 then alphas[k / 4] else colour[k];
  }
}

/** The DXT1 (BC1) block codec: compressBlockDXT1 and decompressBlockDXT1.
    A block is 16 RGBA pixels, 64 bytes, in slot order; its compressed form
    is 8 bytes: c0 and c1 little-endian, then four bytes of 2-bit codes. */
module Dxt1 {
  import opened Bytes
  import opened Rgb565
  import opened Palette
  import opened Nearest

  /** Alpha below this marks a pixel as transparent for the colour block. */
  const AlphaTest: int := 127

  /** Pixel j of a 64-byte RGBA block, as the four-byte array the compressor
      hands to the nearest-entry search. */
  function Pixel(px: seq<u8>, j: nat): (p: seq<u8>)
    requires |px| == 64 && j < 16
    ensures |p| == 4
  {
    [px[4 * j], px[4 * j + 1], px[4 * j + 2], px[4 * j + 3]]
  }

  /** The alpha byte of pixel j. */
  function Alpha(px: seq<u8>, j: nat): u8
    requires |px| == 64 && j < 16
  {
    px[4 * j + 3]
  }

  /** The slot whose code is read back into slot s: the compressor packs the
      first slot of each row of four into the high bits, the decompressor
      reads the first slot from the low bits, so slots swap within a row. */
  function Mirror(s: nat): (m: nat)
    requires s < 16
    ensures m < 16 && m / 4 == s / 4 && m % 4 == 3 - s % 4
  {
    4 * (s / 4) + 3 - s % 4
  }

  /** The accumulators of the first loop of compressBlockDXT1. */
  datatype ColorBounds = ColorBounds(
    maxR: u8, maxG: u8, maxB: u8,
    minR: u8, minG: u8, minB: u8,
    minA: u8, maxA: u8)

  const InitialBounds := ColorBounds(0, 0, 0, 255, 255, 255, 255, 0)

  function Max(x: u8, y: u8): u8 { if y > x then y else x }
  function Min(x: u8, y: u8): u8 { if y < x then y else x }

  /** One step of the scan: alpha always counts, colour only for pixels whose
      alpha is not zero. */
  function Accumulate(b: ColorBounds, r: u8, g: u8, bl: u8, a: u8): (nb: ColorBounds)
    ensures nb.minA <= a <= nb.maxA && nb.minA <= b.minA && b.maxA <= nb.maxA
    ensures a == 0 ==> nb.(minA := b.minA, maxA := b.maxA) == b
    ensures a != 0 ==> nb.minR <= r <= nb.maxR && nb.minG <= g <= nb.maxG && nb.minB <= bl <= nb.maxB
  {
    var b' := b.(minA := Min(b.minA, a), maxA := Max(b.maxA, a));
    if a == 0 then b'
    else b'.(maxR := Max(b.maxR, r), maxG := Max(b.maxG, g), maxB := Max(b.maxB, bl),
             minR := Min(b.minR, r), minG := Min(b.minG, g), minB := Min(b.minB, bl))
  }

  /** The accumulators after the first n pixels. */
  function ScanPixels(px: seq<u8>, n: nat): ColorBounds
    requires |px| == 64 && n <= 16
  {
    if n == 0 then InitialBounds
    else
      var j := n - 1;
      Accumulate(ScanPixels(px, j), px[4 * j], px[4 * j + 1], px[4 * j + 2], px[4 * j + 3])
  }

  /** Whether pixel j takes part in the colour bounds. */
  predicate Counted(px: seq<u8>, j: nat)
    requires |px| == 64 && j < 16
  {
    Alpha(px, j) != 0
  }

  /** The scan yields the minimum and maximum alpha of the pixels seen. */
  lemma {:induction false} ScanAlphaBounds(px: seq<u8>, n: nat)
    requires |px| == 64 && n <= 16
    ensures var s := ScanPixels(px, n);
      && (forall j :: 0 <= j < n ==> s.minA <= Alpha(px, j) <= s.maxA)
      && (s.minA == 255 || exists j :: 0 <= j < n && Alpha(px, j) == s.minA)
      && (s.maxA == 0 || exists j :: 0 <= j < n && Alpha(px, j) == s.maxA)
  {
    if n > 0 {
      ScanAlphaBounds(px, n - 1);
      assert Alpha(px, n - 1) == px[4 * (n - 1) + 3];
    }
  }

  /** The upper colour accumulator of channel ch (0 red, 1 green, 2 blue). */
  function MaxOf(b: ColorBounds, ch: nat): u8
    requires ch < 3
  {
    if ch == 0 then b.maxR else if ch == 1 then b.maxG else b.maxB
  }

  /** The lower colour accumulator of channel ch. */
  function MinOf(b: ColorBounds, ch: nat): u8
    requires ch < 3
  {
    if ch == 0 then b.minR else if ch == 1 then b.minG else b.minB
  }

  /** Over the pixels seen whose alpha is not zero, the scan yields the
      minimum and maximum of colour channel ch; with no such pixel the
      accumulators keep their start values. */
  lemma {:induction false} ScanChannelBounds(px: seq<u8>, n: nat, ch: nat)
    requires |px| == 64 && n <= 16 && ch < 3
    ensures var s := ScanPixels(px, n);
      && (forall j :: 0 <= j < n && Counted(px, j) ==>
            MinOf(s, ch) <= px[4 * j + ch] <= MaxOf(s, ch))
      && (MaxOf(s, ch) == 0 ||
            exists j :: 0 <= j < n && Counted(px, j) && px[4 * j + ch] == MaxOf(s, ch))
      && (MinOf(s, ch) == 255 ||
            exists j :: 0 <= j < n && Counted(px, j) && px[4 * j + ch] == MinOf(s, ch))
      && ((forall j :: 0 <= j < n ==> !Counted(px, j)) ==>
            MaxOf(s, ch) == 0 && MinOf(s, ch) == 255)
  {
    if n > 0 {
      var j := n - 1;
      ScanChannelBounds(px, j, ch);
      assert Counted(px, j) == (px[4 * j + 3] != 0);
      var s, s' := ScanPixels(px, j), ScanPixels(px, n);
      if Counted(px, j) {
        assert MaxOf(s', ch) == Max(MaxOf(s, ch), px[4 * j + ch]);
        assert MinOf(s', ch) == Min(MinOf(s, ch), px[4 * j + ch]);
      } else {
        assert MaxOf(s', ch) == MaxOf(s, ch) && MinOf(s', ch) == MinOf(s, ch);
      }
    }
  }

  /** The endpoints compressBlockDXT1 chooses: the packed maximum and minimum
      colour, swapped when some alpha is below AlphaTest and alpha is not
      suppressed, with c1 forced to 0xFFFF when every alpha is zero. */
  function Endpoints(px: seq<u8>, forceNoAlpha: bool): (u16, u16)
    requires |px| == 64
  {
    var s := ScanPixels(px, 16);
    var c0 := MakeRGB565(s.maxR, s.maxG, s.maxB);
    var c1 := MakeRGB565(s.minR, s.minG, s.minB);
    if s.minA < AlphaTest && !forceNoAlpha then
      (c1, if s.maxA == 0 then 0xFFFF else c0)
    else
      (c0, c1)
  }

  /** Corrected endpoints: those of compressBlockDXT1, except that a block
      whose every alpha is zero (alpha not suppressed) gets two black
      endpoints, so that every pixel of it decodes to transparent black (see
      Dxt1Props.FullyTransparentBlock). */
  function CorrectedEndpoints(px: seq<u8>, forceNoAlpha: bool): (e: (u16, u16))
    requires |px| == 64
    ensures e != Endpoints(px, forceNoAlpha) ==> e == (0, 0) && !forceNoAlpha && ScanPixels(px, 16).maxA == 0
  {
    var s := ScanPixels(px, 16);
    if s.minA < AlphaTest && !forceNoAlpha && s.maxA == 0 then (0, 0)
    else Endpoints(px, forceNoAlpha)
  }

  /** A 2-bit palette index. */
  type Code2 = x: nat | x < 4

  /** The indices of the first n pixels, in pixel order, as the second loop
      of compressBlockDXT1 pushes them. */
  function IndicesUpTo(px: seq<u8>, lookup: seq<u8>, n: nat): (idx: seq<Code2>)
    requires |px| == 64 && |lookup| == 16 && n <= 16
    ensures |idx| == n
  {
    if n == 0 then []
    else IndicesUpTo(px, lookup, n - 1) + [NearestColor(Pixel(px, n - 1), lookup)]
  }

  /** The palette index of every pixel. */
  function Indices(px: seq<u8>, lookup: seq<u8>): (idx: seq<Code2>)
    requires |px| == 64 && |lookup| == 16
    ensures |idx| == 16
  {
    IndicesUpTo(px, lookup, 16)
  }

  /** Byte 4 + row of the index block: the four 2-bit codes of a row, the
      first in the high bits. */
  function PackCodes(i0: Code2, i1: Code2, i2: Code2, i3: Code2): u8
  {
    i0 * 64 + i1 * 16 + i2 * 4 + i3
  }

  /** The block for endpoints c0, c1 and the per-pixel indices `idx`. */
  function Block(c0: u16, c1: u16, idx: seq<Code2>): (block: seq<u8>)
    requires |idx| == 16
    ensures |block| == 8
  {
    SplitWord(c0);
    SplitWord(c1);
    [c0 % 0x100, c0 / 0x100, c1 % 0x100, c1 / 0x100,
     PackCodes(idx[0], idx[1], idx[2], idx[3]),
     PackCodes(idx[4], idx[5], idx[6], idx[7]),
     PackCodes(idx[8], idx[9], idx[10], idx[11]),
     PackCodes(idx[12], idx[13], idx[14], idx[15])]
  }

  /** The 8 bytes compressBlockDXT1 writes for given endpoints. */
  function EncodeWithEndpoints(px: seq<u8>, c0: u16, c1: u16): (block: seq<u8>)
    requires |px| == 64
    ensures |block| == 8
  {
    Block(c0, c1, Indices(px, Dxt1Palette(c0, c1)))
  }

  /** The 8 bytes compressBlockDXT1 writes for a block. */
  function EncodeDxt1(px: seq<u8>, forceNoAlpha: bool): (block: seq<u8>)
    requires |px| == 64
    ensures |block| == 8
  {
    var (c0, c1) := Endpoints(px, forceNoAlpha);
    EncodeWithEndpoints(px, c0, c1)
  }

  /** The 8 bytes a corrected compressBlockDXT1 would write: the same block
      layout and index search on the corrected endpoints. */
  function EncodeDxt1Corrected(px: seq<u8>, forceNoAlpha: bool): (block: seq<u8>)
    requires |px| == 64
    ensures |block| == 8
  {
    var (c0, c1) := CorrectedEndpoints(px, forceNoAlpha);
    EncodeWithEndpoints(px, c0, c1)
  }

  /** A little-endian 16-bit word: `(data[at + 1] << 8) + data[at]`. */
  function Word(data: seq<u8>, at: nat): (w: u16)
    requires at + 1 < |data|
    ensures w % 0x100 == data[at] && w / 0x100 == data[at + 1]
  {
    data[at + 1] as int * 0x100 + data[at]
  }

  /** The 2-bit code of slot i: `(data[4 + floor(2i / 8)] >> (2i % 8)) & 3`,
      that is field i % 4 of byte 4 + i / 4. */
  function Code(data: seq<u8>, i: nat): Code2
    requires |data| == 8 && i < 16
  {
    Crumb(data[4 + i / 4], i % 4)
  }

  /** The RGBA bytes of the first n slots of a block decoded with `lookup`:
      each slot is the lookup entry its code selects. */
  function DecodeSlots(data: seq<u8>, lookup: seq<u8>, n: nat): (rgba: seq<u8>)
    requires |data| == 8 && |lookup| == 16 && n <= 16
    ensures |rgba| == 4 * n
  {
    if n == 0 then []
    else
      var code := Code(data, n - 1);
      DecodeSlots(data, lookup, n - 1) + lookup[4 * code .. 4 * code + 4]
  }

  /** The 64 RGBA bytes decompressBlockDXT1 writes for an 8-byte block. */
  function DecodeDxt1(data: seq<u8>): (rgba: seq<u8>)
    requires |data| == 8
    ensures |rgba| == 64
  {
    DecodeSlots(data, Dxt1Palette(Word(data, 0), Word(data, 2)), 16)
  }

  /** compressBlockDXT1 on a 64-byte block, writing bytes 0-7 of `out`. */
  method CompressBlockDXT1(pixels: seq<u8>, out: array<u8>, forceNoAlpha: bool)
    requires |pixels| == 64 && out.Length >= 8
    modifies out
    ensures out[..8] == EncodeDxt1(pixels, forceNoAlpha)
    ensures out[8..] == old(out[8..])
  {
    var c0, c1 := ChooseEndpoints(pixels, forceNoAlpha);
    var lookup := new u8[16];
    GenerateDXT1Lookup(c0, c1, lookup);
    var indices := FindIndices(pixels, lookup[..]);

    var block := [c0 % 0x100, c0 / 0x100, c1 % 0x100, c1 / 0x100,
      PackCodes(indices[0], indices[1], indices[2], indices[3]),
      PackCodes(indices[4], indices[5], indices[6], indices[7]),
      PackCodes(indices[8], indices[9], indices[10], indices[11]),
      PackCodes(indices[12], indices[13], indices[14], indices[15])];
    forall i | 0 <= i < 8 {
      out[i] := block[i];
    }
  }

  /** The first loop of compressBlockDXT1 and its choice of endpoints. */
  method ChooseEndpoints(pixels: seq<u8>, forceNoAlpha: bool) returns (c0: u16, c1: u16)
    requires |pixels| == 64
    ensures (c0, c1) == Endpoints(pixels, forceNoAlpha)
  {
    var maxR: u8, maxG: u8, maxB: u8 := 0, 0, 0;
    var minR: u8, minG: u8, minB: u8 := 255, 255, 255;
    var minA: u8, maxA: u8 := 255, 0;
    var i := 0;
    ghost var n := 0;
    while i < |pixels|
      invariant 0 <= n <= 16 && i == 4 * n
      invariant ScanPixels(pixels, n) == ColorBounds(maxR, maxG, maxB, minR, minG, minB, minA, maxA)
    {
      var r, g, b, a := pixels[i + 0], pixels[i + 1], pixels[i + 2], pixels[i + 3];
      if a < minA { minA := a; }
      if a > maxA { maxA := a; }
      // full transparency does not take part in the colour bounds
      if a != 0 {
        if r > maxR { maxR := r; }
        if g > maxG { maxG := g; }
        if b > maxB { maxB := b; }
        if r < minR { minR := r; }
        if g < minG { minG := g; }
        if b < minB { minB := b; }
      }
      i, n := i + 4, n + 1;
    }

    c0 := MakeRGB565(maxR, maxG, maxB);
    c1 := MakeRGB565(minR, minG, minB);
    if minA < AlphaTest && !forceNoAlpha {
      c0, c1 := c1, c0;
      if maxA == 0 {
        c1 := 0xFFFF;
      }
    }
  }

  /** The second loop of compressBlockDXT1: the nearest lookup entry of
      every pixel, in pixel order. */
  method FindIndices(pixels: seq<u8>, lookup: seq<u8>) returns (indices: seq<Code2>)
    requires |pixels| == 64 && |lookup| == 16
    ensures indices == Indices(pixels, lookup)
  {
    indices := [];
    var i := 0;
    ghost var n := 0;
    while i < |pixels|
      invariant 0 <= n <= 16 && i == 4 * n
      invariant indices == IndicesUpTo(pixels, lookup, n)
    {
      var index := FindNearestOnLookup([pixels[i], pixels[i + 1], pixels[i + 2], pixels[i + 3]], lookup);
      indices := indices + [index];
      i, n := i + 4, n + 1;
    }
  }

  /** decompressBlockDXT1: false, writing nothing, unless the input is
      exactly 8 bytes; otherwise the 64 decoded bytes fill `out`. */
  method DecompressBlockDXT1(data: seq<u8>, out: array<u8>) returns (ok: bool)
    requires out.Length == 64
    modifies out
    ensures ok == (|data| == 8)
    ensures ok ==> out[..] == DecodeDxt1(data)
    ensures !ok ==> out[..] == old(out[..])
  {
    if |data| != 8 {
      return false;
    }
    var cVal0 := data[1] as int * 0x100 + data[0];
    var cVal1 := data[3] as int * 0x100 + data[2];
    var lookup := new u8[16];
    GenerateDXT1Lookup(cVal0, cVal1, lookup);
    FillSlots(data, lookup[..], out);
    return true;
  }

  /** The slot loop of decompressBlockDXT1: slot i receives the lookup entry
      selected by its 2-bit code. */
  method FillSlots(data: seq<u8>, lookup: seq<u8>, out: array<u8>)
    requires |data| == 8 && |lookup| == 16 && out.Length == 64
    modifies out
    ensures out[..] == DecodeSlots(data, lookup, 16)
  {
    for i := 0 to 16
      invariant out[..4 * i] == DecodeSlots(data, lookup, i)
    {
      var bitOffset := i * 2;
      var byte := 4 + bitOffset / 8;
      var bits := Shr(data[byte], bitOffset % 8) % 4;
      assert bits == Code(data, i) by {
        assert byte == 4 + i / 4 && bitOffset % 8 == 2 * (i % 4);
        CrumbShift(data[byte], i % 4);
      }
      ghost var done := out[..4 * i];
      forall ch | 0 <= ch < 4 {
        out[i * 4 + ch] := lookup[bits * 4 + ch];
      }
      assert out[..4 * i] == done;
      assert out[..4 * (i + 1)] == done + lookup[4 * bits .. 4 * bits + 4];
    }
  }
}

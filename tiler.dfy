/** Whole-texture compress and decompress for the three formats: the size
    checks in their order, then the block loops of the grid, each block
    going through the block codec of the chosen format. */
module Tiler {
  import opened Bytes
  import opened Dxt1
  import opened Composite
  import opened Dxt3
  import opened Dxt5
  import opened Grid

  /** The three formats the library exports. */
  datatype Format = DXT1 | DXT3 | DXT5

  /** Bytes of one compressed block. */
  function BlockSize(f: Format): nat
  {
    if f == DXT1 then 8 else 16
  }

  /** The errors compress and decompress throw, in the order they test them. */
  datatype SizeError =
    | WidthNotMultipleOf4
    | HeightNotMultipleOf4
    | TooSmall
    | PixelsMismatch
    | DataMismatch

  datatype Option<T> = None | Some(value: T)

  datatype Result<T> = Ok(value: T) | Err(error: SizeError)

  /** The first three checks of compress and decompress, in their order. */
  function DimensionError(width: int, height: int): (e: Option<SizeError>)
    ensures e == None <==> ValidSize(width, height)
    ensures width % 4 != 0 ==> e == Some(WidthNotMultipleOf4)
    ensures width % 4 == 0 && height % 4 != 0 ==> e == Some(HeightNotMultipleOf4)
    ensures width % 4 == 0 && height % 4 == 0 && (width < 4 || height < 4) ==> e == Some(TooSmall)
  {
    if width % 4 != 0 then Some(WidthNotMultipleOf4)
    else if height % 4 != 0 then Some(HeightNotMultipleOf4)
    else if width < 4 || height < 4 then Some(TooSmall)
    else None
  }

  /** The block compressor of a format; DXT1 keeps its default of not
      suppressing alpha. */
  function EncodeBlock(f: Format, px: seq<u8>): (block: seq<u8>)
    requires |px| == 64
    ensures |block| == BlockSize(f)
  {
    match f
    case DXT1 => EncodeDxt1(px, false)
    case DXT3 => EncodeDxt3(px)
    case DXT5 => EncodeDxt5(px)
  }

  /** The fresh, zero-filled block buffer of decompress. */
  function Blank(): (buffer: seq<u8>)
    ensures |buffer| == 64 && forall k :: 0 <= k < 64 ==> buffer[k] == 0
  {
    seq(64, k => 0)
  }

  /** The block decompressor of a format, on a whole block. */
  function DecodeBlock(f: Format, data: seq<u8>): (rgba: seq<u8>)
    requires |data| == BlockSize(f)
    ensures |rgba| == 64
  {
    match f
    case DXT1 => DecodeDxt1(data)
    case DXT3 => DecodeDxt3(data, Blank())
    case DXT5 => DecodeDxt5(data, Blank())
  }

  /** A whole block overwrites all of the reused block buffer, so what the
      buffer held before does not matter. */
  lemma PriorIgnored(f: Format, data: seq<u8>, prior: seq<u8>)
    requires f != DXT1 && |data| == 16 && |prior| == 64
    ensures f == DXT3 ==> DecodeDxt3(data, prior) == DecodeBlock(f, data)
    ensures f == DXT5 ==> DecodeDxt5(data, prior) == DecodeBlock(f, data)
  {
    assert ColourTail(data, prior) == ColourTail(data, Blank());
  }

  /** The format's block compressor as compress calls it, on any 64-byte
      RGBA block. */
  function Encoder(f: Format): (encode: seq<u8> --> seq<u8>)
    ensures BlockEncoder(encode, BlockSize(f))
    ensures Compresses(encode, f)
  {
    px requires |px| == 64 => EncodeBlock(f, px)
  }

  /** `encode` is the block compressor of format f. The link is made only
      where a call of the block compressor is in view. */
  ghost predicate Compresses(encode: seq<u8> --> seq<u8>, f: Format)
  {
    forall px {:trigger EncodeBlock(f, px)} :: |px| == 64 ==> encode.requires(px) && encode(px) == EncodeBlock(f, px)
  }

  /** The format's block decompressor as decompress calls it, on any block
      of the format's size. */
  function Decoder(f: Format): (decode: seq<u8> --> seq<u8>)
    ensures BlockDecoder(decode, BlockSize(f))
    ensures Decompresses(decode, f)
  {
    data requires |data| == BlockSize(f) => DecodeBlock(f, data)
  }

  /** `decode` is the block decompressor of format f. */
  ghost predicate Decompresses(decode: seq<u8> --> seq<u8>, f: Format)
  {
    forall data {:trigger DecodeBlock(f, data)} :: |data| == BlockSize(f) ==>
      decode.requires(data) && decode(data) == DecodeBlock(f, data)
  }

  /** compress: the size checks, the pixel-count check (4 bytes a pixel),
      then the compressed blocks. */
  function EncodeImage(width: int, height: int, pixels: seq<u8>, f: Format): (r: Result<seq<u8>>)
    ensures r.Ok? <==> ValidSize(width, height) && |pixels| == width * height * 4
    ensures r.Ok? ==> |r.value| == BlockCount(width, height) * BlockSize(f)
    ensures !ValidSize(width, height) ==> r == Err(DimensionError(width, height).value)
    ensures ValidSize(width, height) && |pixels| != width * height * 4 ==> r == Err(PixelsMismatch)
  {
    match DimensionError(width, height)
    case Some(e) => Err(e)
    case None =>
      if width * height * 4 != |pixels| then Err(PixelsMismatch)
      else Ok(EncodedBlocks(width, height, pixels, Encoder(f), BlockSize(f)))
  }

  /** decompress: the size checks, the data-length check, then the image. */
  function DecodeImage(width: int, height: int, data: seq<u8>, f: Format): (r: Result<seq<u8>>)
    ensures r.Ok? <==> ValidSize(width, height) && |data| == BlockCount(width, height) * BlockSize(f)
    ensures r.Ok? ==> |r.value| == width * height * 4
    ensures !ValidSize(width, height) ==> r == Err(DimensionError(width, height).value)
    ensures ValidSize(width, height) && |data| != BlockCount(width, height) * BlockSize(f) ==> r == Err(DataMismatch)
  {
    match DimensionError(width, height)
    case Some(e) => Err(e)
    case None =>
      if BlockCount(width, height) * BlockSize(f) != |data| then Err(DataMismatch)
      else Ok(DecodedPixels(width, height, data, Decoder(f), BlockSize(f)))
  }

  /** `compression.blockCompressMethod(rgbaBlock, dxtBlock)`. */
  method CompressBlock(f: Format, pixels: seq<u8>, out: array<u8>)
    requires |pixels| == 64 && out.Length == BlockSize(f)
    modifies out
    ensures out[..] == EncodeBlock(f, pixels)
  {
    match f
    case DXT1 =>
      CompressBlockDXT1(pixels, out, false);
      assert out[..] == out[..8];
    case DXT3 =>
      CompressBlockDXT3(pixels, out);
      assert out[..] == out[..16];
    case DXT5 =>
      CompressBlockDXT5(pixels, out);
      assert out[..] == out[..16];
  }

  /** `compression.blockDecompressMethod(block, blockBuffer)` on a whole
      block. */
  method DecompressBlock(f: Format, data: seq<u8>, out: array<u8>)
    requires |data| == BlockSize(f) && out.Length == 64
    modifies out
    ensures out[..] == DecodeBlock(f, data)
  {
    match f
    case DXT1 =>
      var _ := DecompressBlockDXT1(data, out);
    case DXT3 =>
      PriorIgnored(f, data, out[..]);
      DecompressBlockDXT3(data, out);
    case DXT5 =>
      PriorIgnored(f, data, out[..]);
      DecompressBlockDXT5(data, out);
  }

  /** compress: validate, then run the block loop. */
  method Compress(width: int, height: int, pixels: seq<u8>, f: Format) returns (r: Result<array<u8>>)
    ensures r.Err? ==> EncodeImage(width, height, pixels, f) == Err(r.error)
    ensures r.Ok? ==> fresh(r.value) && EncodeImage(width, height, pixels, f) == Ok(r.value[..])
  {
    var e := DimensionError(width, height);
    if e.Some? {
      return Err(e.value);
    }
    if width * height * 4 != |pixels| {
      return Err(PixelsMismatch);
    }
    var buffer := CompressBlocks(width, height, pixels, f, Encoder(f));
    return Ok(buffer);
  }

  /** The block loop of compress, on an image whose sizes passed the checks:
      gather each block, compress it, copy it to its place in the output. */
  method CompressBlocks(width: nat, height: nat, pixels: seq<u8>, f: Format, ghost encode: seq<u8> --> seq<u8>)
    returns (buffer: array<u8>)
    requires ValidSize(width, height) && |pixels| == width * height * 4
    requires BlockEncoder(encode, BlockSize(f)) && Compresses(encode, f)
    ensures fresh(buffer) && buffer[..] == EncodedBlocks(width, height, pixels, encode, BlockSize(f))
  {
    var w := width / 4;
    var h := height / 4;
    var blockNumber := w * h;
    var size := BlockSize(f);
    buffer := new u8[blockNumber * size];
    var rgbaBlock := new u8[64];
    var dxtBlock := new u8[size];
    ghost var blocks := CompressedBlocks(width, height, pixels, encode, size);
    for i := 0 to blockNumber
      invariant buffer[..i * size] == Flatten(blocks, size)[..i * size]
    {
      CompressBlockAt(width, height, pixels, f, encode, i, rgbaBlock, dxtBlock);
      ghost var before := buffer[..];
      MulMono(i + 1, blockNumber, size);
      CopyBlock(dxtBlock[..], buffer, i * size);
      FlattenExtend(blocks, size, i, before, buffer[..]);
    }
    assert buffer[..] == buffer[..blockNumber * size];
  }

  /** The first half of an iteration of compress's block loop: gather block
      number i into the RGBA buffer and compress it into the block buffer. */
  method CompressBlockAt(width: nat, height: nat, pixels: seq<u8>, f: Format, ghost encode: seq<u8> --> seq<u8>,
                         i: nat, rgbaBlock: array<u8>, dxtBlock: array<u8>)
    requires ValidSize(width, height) && |pixels| == width * height * 4
    requires BlockEncoder(encode, BlockSize(f)) && Compresses(encode, f)
    requires i < BlockCount(width, height)
    requires rgbaBlock.Length == 64 && dxtBlock.Length == BlockSize(f) && rgbaBlock != dxtBlock
    modifies rgbaBlock, dxtBlock
    ensures dxtBlock[..] == CompressedBlock(width, height, pixels, encode, BlockSize(f), i)
  {
    var w := width / 4;
    BlockCoordinates(width, height, i);
    GatherBlock(width, height, pixels, i % w, i / w, rgbaBlock);
    CompressBlock(f, rgbaBlock[..], dxtBlock);
  }

  /** decompress: validate, then run the block loop. */
  method Decompress(width: int, height: int, data: seq<u8>, f: Format) returns (r: Result<array<u8>>)
    ensures r.Err? ==> DecodeImage(width, height, data, f) == Err(r.error)
    ensures r.Ok? ==> fresh(r.value) && DecodeImage(width, height, data, f) == Ok(r.value[..])
  {
    var e := DimensionError(width, height);
    if e.Some? {
      return Err(e.value);
    }
    var w := width / 4;
    var h := height / 4;
    var blockNumber := w * h;
    if blockNumber * BlockSize(f) != |data| {
      return Err(DataMismatch);
    }
    var out := DecompressBlocks(width, height, data, f, Decoder(f));
    return Ok(out);
  }

  /** The block loop of decompress, on input whose sizes passed the checks:
      decompress each block and write its pixels to their places. */
  method DecompressBlocks(width: nat, height: nat, data: seq<u8>, f: Format, ghost decode: seq<u8> --> seq<u8>)
    returns (out: array<u8>)
    requires ValidSize(width, height) && |data| == BlockCount(width, height) * BlockSize(f)
    requires BlockDecoder(decode, BlockSize(f)) && Decompresses(decode, f)
    ensures fresh(out) && out[..] == DecodedPixels(width, height, data, decode, BlockSize(f))
  {
    var w := width / 4;
    var h := height / 4;
    var blockNumber := w * h;
    var size := BlockSize(f);
    out := new u8[width * height * 4](_ => 0);
    var blockBuffer := new u8[64](_ => 0);
    ghost var blocks := DecodedBlocks(data, decode, size, blockNumber);
    ghost var image := Unblock(width, height, blocks);
    for i := 0 to blockNumber
      invariant forall k :: 0 <= k < out.Length ==> out[k] == if BlockOf(width, k / 4) < i then image[k] else 0
    {
      DecompressBlockAt(data, f, decode, blockNumber, i, blockBuffer);
      BlockCoordinates(width, height, i);
      ScatterBlock(width, height, i % w, i / w, blockBuffer[..], out);
      forall k | 0 <= k < out.Length && BlockOf(width, k / 4) == i
        ensures out[k] == image[k]
      {
        UnblockAt(width, height, blocks, k);
      }
    }
    forall k | 0 <= k < out.Length
      ensures out[k] == image[k]
    {
      DivBelow(k, width * height, 4);
      BlockOfBelow(width, height, k / 4);
    }
    assert out[..] == image;
  }

  /** The first half of an iteration of decompress's block loop: block i of
      the input, sliced out and decompressed into the block buffer. */
  method DecompressBlockAt(data: seq<u8>, f: Format, ghost decode: seq<u8> --> seq<u8>, n: nat, i: nat,
                           blockBuffer: array<u8>)
    requires |data| == n * BlockSize(f) && i < n && blockBuffer.Length == 64
    requires BlockDecoder(decode, BlockSize(f)) && Decompresses(decode, f)
    modifies blockBuffer
    ensures blockBuffer[..] == DecodedBlock(data, decode, BlockSize(f), n, i)
  {
    var size := BlockSize(f);
    MulMono(i + 1, n, size);
    var block := data[i * size .. (i + 1) * size];
    assert block == BlockData(data, size, n, i);
    DecompressBlock(f, block, blockBuffer);
  }
}

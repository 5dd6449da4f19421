/** The geometry of whole-texture compress and decompress: a width x height
    RGBA image, 4 bytes a pixel in row-major order, is cut into 4x4 blocks
    numbered row by row. Compress gathers each block with its rows read from
    right to left and hands it to a block compressor; decompress hands each
    block of the input to a block decompressor and writes slot 4y + x of its
    result to column x, row y of the block. Both are stated here for any
    block codec, as the library's entry points take the codec as an
    argument. */
module Grid {
  import opened Bytes
  import opened Dxt1

  /** Dimensions both entry points accept. */
  predicate ValidSize(width: int, height: int)
  {
    width % 4 == 0 && height % 4 == 0 && width >= 4 && height >= 4
  }

  /** Number of blocks of a valid image. */
  function BlockCount(width: nat, height: nat): nat
    requires ValidSize(width, height)
  {
    (width / 4) * (height / 4)
  }

  /** The image pixel at slot s (row s / 4, column s % 4) of the block in
      column gx, row gy of the grid of blocks. */
  function PixelAt(width: nat, gx: nat, gy: nat, s: nat): nat
    requires s < 16
  {
    (4 * gx + s % 4) + (4 * gy + s / 4) * width
  }

  /** Grid column of the block holding image pixel p. */
  function BlockX(width: nat, p: nat): nat
    requires width > 0
  {
    DivNat(p, width);
    p % width / 4
  }

  /** Grid row of the block holding image pixel p. */
  function BlockY(width: nat, p: nat): nat
    requires width > 0
  {
    DivNat(p, width);
    p / width / 4
  }

  /** The slot of image pixel p within its block. */
  function SlotOf(width: nat, p: nat): (s: nat)
    requires width > 0
    ensures s < 16
  {
    DivNat(p, width);
    4 * (p / width % 4) + p % width % 4
  }

  /** The number, in compress's and decompress's order, of the block in
      column gx, row gy: blocks are numbered row by row. */
  function BlockNumber(width: nat, gx: nat, gy: nat): nat
  {
    gy * (width / 4) + gx
  }

  /** The block holding image pixel p, by number. */
  function BlockOf(width: nat, p: nat): nat
    requires width > 0
  {
    BlockNumber(width, BlockX(width, p), BlockY(width, p))
  }

  /** Division of a natural number by a positive one: the quotient is
      natural and its multiple does not exceed the dividend. */
  lemma DivNat(a: nat, b: nat)
    requires b > 0
    ensures 0 <= a / b && a / b * b <= a
  {
    var q, r := a / b, a % b;
    assert a == q * b + r && 0 <= r < b;
    MulAtLeast(-q, b);
    assert -q * b == -(q * b);
  }

  /** A quotient below its bound: k < n * b gives k / b < n. */
  lemma DivBelow(k: nat, n: nat, b: nat)
    requires b > 0 && k < n * b
    ensures k / b < n
  {
    DivNat(k, b);
    if k / b >= n {
      MulMono(n, k / b, b);
    }
  }

  /** Row-major cells stay inside the grid: a column below m and a row
      below n give a cell below n * m. */
  lemma CellBelow(row: nat, col: nat, n: nat, m: nat)
    requires row < n && col < m
    ensures col + row * m < n * m
  {
    MulMono(row, n - 1, m);
  }

  /** Block number i lies in column i % w, row i / w of a grid w blocks
      wide and h high, and numbering those coordinates gives i back. */
  lemma BlockCoordinates(width: nat, height: nat, i: nat)
    requires ValidSize(width, height) && i < BlockCount(width, height)
    ensures var w := width / 4;
      && 0 <= i / w < height / 4 && 0 <= i % w < w
      && BlockNumber(width, i % w, i / w) == i
  {
    var w := width / 4;
    DivNat(i, w);
    DivBelow(i, height / 4, w);
  }

  /** Numbering is one to one: the number of the block in column gx, row gy
      is below the block count and has column gx and row gy. */
  lemma BlockNumberInverse(width: nat, height: nat, gx: nat, gy: nat)
    requires ValidSize(width, height) && gx < width / 4 && gy < height / 4
    ensures var i := BlockNumber(width, gx, gy);
      i < BlockCount(width, height) && i % (width / 4) == gx && i / (width / 4) == gy
  {
    CellBelow(gy, gx, height / 4, width / 4);
    DivModUnique(BlockNumber(width, gx, gy), width / 4, gy, gx);
  }

  /** Every block coordinate and slot names a pixel inside the image, and
      that pixel lies in that block at that slot. */
  lemma PixelAtInverse(width: nat, height: nat, gx: nat, gy: nat, s: nat)
    requires ValidSize(width, height) && gx < width / 4 && gy < height / 4 && s < 16
    ensures PixelAt(width, gx, gy, s) < width * height
    ensures BlockX(width, PixelAt(width, gx, gy, s)) == gx
    ensures BlockY(width, PixelAt(width, gx, gy, s)) == gy
    ensures SlotOf(width, PixelAt(width, gx, gy, s)) == s
  {
    var px, py := 4 * gx + s % 4, 4 * gy + s / 4;
    var p := PixelAt(width, gx, gy, s);
    assert px < width && py < height;
    CellBelow(py, px, height, width);
    DivModUnique(p, width, py, px);
    DivModUnique(px, 4, gx, s % 4);
    DivModUnique(py, 4, gy, s / 4);
  }

  /** Every pixel inside the image is named by its block coordinates and
      slot, and those coordinates lie inside the grid. */
  lemma PixelDecomposition(width: nat, height: nat, p: nat)
    requires ValidSize(width, height) && p < width * height
    ensures BlockX(width, p) < width / 4 && BlockY(width, p) < height / 4
    ensures p == PixelAt(width, BlockX(width, p), BlockY(width, p), SlotOf(width, p))
  {
    DivNat(p, width);
    var px, py := p % width, p / width;
    DivBelow(p, height, width);
    assert p == px + py * width;
    var gx, gy, s := BlockX(width, p), BlockY(width, p), SlotOf(width, p);
    assert gx == px / 4 && gy == py / 4 && s == 4 * (py % 4) + px % 4;
    DivModUnique(s, 4, py % 4, px % 4);
    assert 4 * gx + s % 4 == px;
    assert 4 * gy + s / 4 == py;
  }

  /** The byte offset the source computes for column x, row y of the block
      at grid position (gx, gy), `px * 4 + py * 4 * width`, is four times
      the pixel at slot 4y + x. */
  lemma SourceOffset(width: nat, height: nat, gx: nat, gy: nat, x: nat, y: nat, px: nat, py: nat)
    requires ValidSize(width, height) && gx < width / 4 && gy < height / 4 && x < 4 && y < 4
    requires px == x + gx * 4 && py == y + gy * 4
    ensures px * 4 + py * 4 * width == 4 * PixelAt(width, gx, gy, 4 * y + x)
    ensures PixelAt(width, gx, gy, 4 * y + x) < width * height
  {
    PixelAtInverse(width, height, gx, gy, 4 * y + x);
    DivModUnique(4 * y + x, 4, y, x);
    var row := py * width;
    assert PixelAt(width, gx, gy, 4 * y + x) == px + row;
    assert py * 4 * width == 4 * row by {
      assert py * 4 * width == (py * width) * 4;
    }
  }

  /** The RGBA block compress builds for the block at grid position
      (gx, gy): slot q holds the image pixel at slot Mirror(q), each row of
      the block read from right to left. */
  function Gather(width: nat, height: nat, pixels: seq<u8>, gx: nat, gy: nat): (block: seq<u8>)
    requires ValidSize(width, height) && |pixels| == width * height * 4
    requires gx < width / 4 && gy < height / 4
    ensures |block| == 64
  {
    seq(64, k requires 0 <= k < 64 => GatherByte(width, height, pixels, gx, gy, k))
  }

  /** Byte k of the gathered block: channel k % 4 of the image pixel at slot
      Mirror(k / 4). */
  function GatherByte(width: nat, height: nat, pixels: seq<u8>, gx: nat, gy: nat, k: nat): u8
    requires ValidSize(width, height) && |pixels| == width * height * 4
    requires gx < width / 4 && gy < height / 4 && k < 64
  {
    ImageByte(width, height, pixels, gx, gy, Mirror(k / 4), k % 4)
  }

  /** Byte c of the image pixel at slot s of the block at (gx, gy). */
  function ImageByte(width: nat, height: nat, pixels: seq<u8>, gx: nat, gy: nat, s: nat, c: nat): u8
    requires ValidSize(width, height) && |pixels| == width * height * 4
    requires gx < width / 4 && gy < height / 4 && s < 16 && c < 4
  {
    PixelAtInverse(width, height, gx, gy, s);
    pixels[4 * PixelAt(width, gx, gy, s) + c]
  }

  /** Column x, row y of the block at (gx, gy) fills bytes j = 16y + 4(3 - x)
      to j + 3 of the gathered block, from the pixel at slot 4y + x, which
      starts at the byte offset compress computes. */
  lemma GatherStep(width: nat, height: nat, pixels: seq<u8>, gx: nat, gy: nat, x: nat, y: nat,
                   px: nat, py: nat, b: nat)
    requires ValidSize(width, height) && |pixels| == width * height * 4
    requires gx < width / 4 && gy < height / 4 && x < 4 && y < 4
    requires px == x + gx * 4 && py == y + gy * 4 && b == px * 4 + py * 4 * width
    ensures b + 3 < |pixels|
    ensures var j := 16 * y + 4 * (3 - x);
      var block := Gather(width, height, pixels, gx, gy);
      && block[j] == pixels[b] && block[j + 1] == pixels[b + 1]
      && block[j + 2] == pixels[b + 2] && block[j + 3] == pixels[b + 3]
  {
    SourceOffset(width, height, gx, gy, x, y, px, py);
    var q := 4 * y + 3 - x;
    assert Mirror(q) == 4 * y + x by {
      DivModUnique(q, 4, y, 3 - x);
    }
    GatherAt(width, height, pixels, gx, gy, q, 0);
    GatherAt(width, height, pixels, gx, gy, q, 1);
    GatherAt(width, height, pixels, gx, gy, q, 2);
    GatherAt(width, height, pixels, gx, gy, q, 3);
  }

  /** Byte c of slot q of the gathered block is byte c of the image pixel
      at slot Mirror(q). */
  lemma GatherAt(width: nat, height: nat, pixels: seq<u8>, gx: nat, gy: nat, q: nat, c: nat)
    requires ValidSize(width, height) && |pixels| == width * height * 4
    requires gx < width / 4 && gy < height / 4 && q < 16 && c < 4
    ensures PixelAt(width, gx, gy, Mirror(q)) < width * height
    ensures Gather(width, height, pixels, gx, gy)[4 * q + c] == pixels[4 * PixelAt(width, gx, gy, Mirror(q)) + c]
  {
    PixelAtInverse(width, height, gx, gy, Mirror(q));
    DivModUnique(4 * q + c, 4, q, c);
    var k := 4 * q + c;
    assert Gather(width, height, pixels, gx, gy)[k] == GatherByte(width, height, pixels, gx, gy, k);
  }

  /** The two inner loops of compress: the block at grid position (gx, gy),
      each row read from right to left, into the RGBA block buffer. */
  method GatherBlock(width: nat, height: nat, pixels: seq<u8>, gx: nat, gy: nat, rgbaBlock: array<u8>)
    requires ValidSize(width, height) && |pixels| == width * height * 4
    requires gx < width / 4 && gy < height / 4 && rgbaBlock.Length == 64
    modifies rgbaBlock
    ensures rgbaBlock[..] == Gather(width, height, pixels, gx, gy)
  {
    ghost var block := Gather(width, height, pixels, gx, gy);
    var pixelX := gx * 4;
    var pixelY := gy * 4;
    var j := 0;
    for y := 0 to 4
      invariant j == 16 * y
      invariant forall k :: 0 <= k < j ==> rgbaBlock[k] == block[k]
    {
      var x := 3;
      while x >= 0
        invariant -1 <= x <= 3 && j == 16 * y + 4 * (3 - x)
        invariant forall k :: 0 <= k < j ==> rgbaBlock[k] == block[k]
      {
        var px := x + pixelX;
        var py := y + pixelY;
        var baseOffset := px * 4 + py * 4 * width;
        GatherStep(width, height, pixels, gx, gy, x, y, px, py, baseOffset);
        rgbaBlock[j + 0] := pixels[baseOffset + 0];
        rgbaBlock[j + 1] := pixels[baseOffset + 1];
        rgbaBlock[j + 2] := pixels[baseOffset + 2];
        rgbaBlock[j + 3] := pixels[baseOffset + 3];
        j := j + 4;
        x := x - 1;
      }
    }
    assert rgbaBlock[..] == block;
  }

  /** The gathered block with number i. */
  function NumberedGather(width: nat, height: nat, pixels: seq<u8>, i: nat): (block: seq<u8>)
    requires ValidSize(width, height) && |pixels| == width * height * 4
    requires i < BlockCount(width, height)
    ensures |block| == 64
  {
    BlockCoordinates(width, height, i);
    Gather(width, height, pixels, i % (width / 4), i / (width / 4))
  }

  /** What compress asks of a block compressor: every 64-byte RGBA block
      becomes `size` bytes. */
  ghost predicate BlockEncoder(encode: seq<u8> --> seq<u8>, size: nat)
  {
    forall px :: |px| == 64 ==> encode.requires(px) && |encode(px)| == size
  }

  /** Every block of the image, compressed, in block order. */
  function CompressedBlocks(width: nat, height: nat, pixels: seq<u8>, encode: seq<u8> --> seq<u8>, size: nat)
    : (blocks: seq<seq<u8>>)
    requires ValidSize(width, height) && |pixels| == width * height * 4 && BlockEncoder(encode, size)
    ensures |blocks| == BlockCount(width, height)
    ensures forall i :: 0 <= i < |blocks| ==> |blocks[i]| == size
  {
    seq(BlockCount(width, height), i requires 0 <= i < BlockCount(width, height) =>
      CompressedBlock(width, height, pixels, encode, size, i))
  }

  /** Block number i of the image, gathered and compressed. */
  function CompressedBlock(width: nat, height: nat, pixels: seq<u8>, encode: seq<u8> --> seq<u8>, size: nat, i: nat)
    : (block: seq<u8>)
    requires ValidSize(width, height) && |pixels| == width * height * 4 && BlockEncoder(encode, size)
    requires i < BlockCount(width, height)
    ensures |block| == size
  {
    encode(NumberedGather(width, height, pixels, i))
  }

  /** Blocks of `size` bytes laid end to end. */
  function Flatten(blocks: seq<seq<u8>>, size: nat): (bytes: seq<u8>)
    requires forall i :: 0 <= i < |blocks| ==> |blocks[i]| == size
    ensures |bytes| == |blocks| * size
  {
    seq(|blocks| * size, k requires 0 <= k < |blocks| * size => FlatByte(blocks, size, k))
  }

  /** Byte k of the flattened blocks: byte k % size of block k / size. */
  function FlatByte(blocks: seq<seq<u8>>, size: nat, k: nat): u8
    requires forall i :: 0 <= i < |blocks| ==> |blocks[i]| == size
    requires k < |blocks| * size
  {
    DivBelow(k, |blocks|, size);
    blocks[k / size][k % size]
  }

  /** Byte j of block i sits at i * size + j of the flattened blocks. */
  lemma FlattenAt(blocks: seq<seq<u8>>, size: nat, i: nat, j: nat)
    requires forall i :: 0 <= i < |blocks| ==> |blocks[i]| == size
    requires i < |blocks| && j < size
    ensures i * size + j < |blocks| * size
    ensures Flatten(blocks, size)[i * size + j] == blocks[i][j]
  {
    BlockIndex(|blocks|, size, i, j);
  }

  /** Slicing block i back out of the flattened blocks gives block i. */
  lemma FlattenSlice(blocks: seq<seq<u8>>, size: nat, i: nat)
    requires forall i :: 0 <= i < |blocks| ==> |blocks[i]| == size
    requires i < |blocks|
    ensures (i + 1) * size <= |blocks| * size
    ensures Flatten(blocks, size)[i * size .. (i + 1) * size] == blocks[i]
  {
    MulMono(i + 1, |blocks|, size);
    forall j | 0 <= j < size
      ensures Flatten(blocks, size)[i * size .. (i + 1) * size][j] == blocks[i][j]
    {
      FlattenAt(blocks, size, i, j);
    }
  }

  /** One pass of compress's copy loop extends the correct prefix of the
      output by block i. */
  lemma FlattenExtend(blocks: seq<seq<u8>>, size: nat, i: nat, before: seq<u8>, after: seq<u8>)
    requires forall i :: 0 <= i < |blocks| ==> |blocks[i]| == size
    requires i < |blocks| && |before| == |blocks| * size
    requires i * size + size <= |before|
    requires before[..i * size] == Flatten(blocks, size)[..i * size]
    requires after == before[..i * size] + blocks[i] + before[i * size + size..]
    ensures |after| == |before| && (i + 1) * size <= |after|
    ensures after[..(i + 1) * size] == Flatten(blocks, size)[..(i + 1) * size]
  {
    var offset := i * size;
    assert offset + size == (i + 1) * size;
    var flat := Flatten(blocks, size);
    forall k | 0 <= k < offset + size
      ensures after[k] == flat[k]
    {
      if offset <= k {
        FlattenAt(blocks, size, i, k - offset);
      } else {
        assert after[k] == before[..offset][k];
      }
    }
  }

  /** Row-major indexing of n blocks of `size` bytes: byte j of block i is
      in range, and division by the block size recovers i and j. */
  lemma BlockIndex(n: nat, size: nat, i: nat, j: nat)
    requires i < n && j < size
    ensures i * size + j < n * size
    ensures (i * size + j) / size == i && (i * size + j) % size == j
  {
    CellBelow(i, j, n, size);
    DivModUnique(i * size + j, size, i, j);
  }

  /** The compressed blocks, one after another in block order. */
  function EncodedBlocks(width: nat, height: nat, pixels: seq<u8>, encode: seq<u8> --> seq<u8>, size: nat)
    : (bytes: seq<u8>)
    requires ValidSize(width, height) && |pixels| == width * height * 4 && BlockEncoder(encode, size)
    ensures |bytes| == BlockCount(width, height) * size
  {
    Flatten(CompressedBlocks(width, height, pixels, encode, size), size)
  }

  /** The copy loop of compress: the compressed block goes to `offset`
      onwards in the output, and nothing else changes. */
  method CopyBlock(block: seq<u8>, buffer: array<u8>, offset: nat)
    requires offset + |block| <= buffer.Length
    modifies buffer
    ensures buffer[..] == old(buffer[..offset]) + block + old(buffer[offset + |block|..])
  {
    for j := 0 to |block|
      invariant forall k :: 0 <= k < buffer.Length ==>
        buffer[k] == if offset <= k < offset + j then block[k - offset] else old(buffer[k])
    {
      buffer[offset + j] := block[j];
    }
  }

  /** What decompress asks of a block decompressor: every `size`-byte block
      becomes 64 bytes of RGBA. */
  ghost predicate BlockDecoder(decode: seq<u8> --> seq<u8>, size: nat)
  {
    forall data :: |data| == size ==> decode.requires(data) && |decode(data)| == 64
  }

  /** `data.slice(i * blockSize, (i + 1) * blockSize)`: block i of n. */
  function BlockData(data: seq<u8>, size: nat, n: nat, i: nat): (block: seq<u8>)
    requires |data| == n * size && i < n
    ensures |block| == size
  {
    MulMono(i + 1, n, size);
    data[i * size .. (i + 1) * size]
  }

  /** Every block of the input, decompressed, in block order. */
  function DecodedBlocks(data: seq<u8>, decode: seq<u8> --> seq<u8>, size: nat, n: nat): (blocks: seq<seq<u8>>)
    requires |data| == n * size && BlockDecoder(decode, size)
    ensures |blocks| == n
    ensures forall i :: 0 <= i < n ==> |blocks[i]| == 64
  {
    seq(n, i requires 0 <= i < n => DecodedBlock(data, decode, size, n, i))
  }

  /** Block i of n of the input, decompressed. */
  function DecodedBlock(data: seq<u8>, decode: seq<u8> --> seq<u8>, size: nat, n: nat, i: nat): (rgba: seq<u8>)
    requires |data| == n * size && BlockDecoder(decode, size) && i < n
    ensures |rgba| == 64
  {
    decode(BlockData(data, size, n, i))
  }

  /** The image assembled from decoded blocks: byte c of pixel p comes from
      the block holding p, at p's slot. */
  function Unblock(width: nat, height: nat, blocks: seq<seq<u8>>): (image: seq<u8>)
    requires ValidSize(width, height) && |blocks| == BlockCount(width, height)
    requires forall i :: 0 <= i < |blocks| ==> |blocks[i]| == 64
    ensures |image| == width * height * 4
  {
    seq(width * height * 4, k requires 0 <= k < width * height * 4 => UnblockByte(width, height, blocks, k))
  }

  /** Byte k of the image: channel k % 4 of pixel k / 4. */
  function UnblockByte(width: nat, height: nat, blocks: seq<seq<u8>>, k: nat): u8
    requires ValidSize(width, height) && |blocks| == BlockCount(width, height)
    requires forall i :: 0 <= i < |blocks| ==> |blocks[i]| == 64
    requires k < width * height * 4
  {
    DivBelow(k, width * height, 4);
    var p := k / 4;
    PixelDecomposition(width, height, p);
    BlockNumberInverse(width, height, BlockX(width, p), BlockY(width, p));
    blocks[BlockOf(width, p)][4 * SlotOf(width, p) + k % 4]
  }

  /** The image decompress assembles from the input's blocks. */
  function DecodedPixels(width: nat, height: nat, data: seq<u8>, decode: seq<u8> --> seq<u8>, size: nat)
    : (image: seq<u8>)
    requires ValidSize(width, height) && |data| == BlockCount(width, height) * size && BlockDecoder(decode, size)
    ensures |image| == width * height * 4
  {
    Unblock(width, height, DecodedBlocks(data, decode, size, BlockCount(width, height)))
  }

  /** A pixel is at slot s of the block at (gx, gy) exactly when it is the
      pixel PixelAt names. */
  lemma PixelOfSlot(width: nat, height: nat, p: nat, gx: nat, gy: nat, s: nat)
    requires ValidSize(width, height) && p < width * height
    requires gx < width / 4 && gy < height / 4 && s < 16
    ensures (BlockOf(width, p) == BlockNumber(width, gx, gy) && SlotOf(width, p) == s)
        <==> p == PixelAt(width, gx, gy, s)
  {
    PixelDecomposition(width, height, p);
    PixelAtInverse(width, height, gx, gy, s);
    BlockNumberInverse(width, height, BlockX(width, p), BlockY(width, p));
    BlockNumberInverse(width, height, gx, gy);
  }

  /** Every pixel lies in a block below the block count. */
  lemma BlockOfBelow(width: nat, height: nat, p: nat)
    requires ValidSize(width, height) && p < width * height
    ensures BlockOf(width, p) < BlockCount(width, height)
  {
    PixelDecomposition(width, height, p);
    BlockNumberInverse(width, height, BlockX(width, p), BlockY(width, p));
  }

  /** Byte k of the assembled image comes from its pixel's block, at the
      pixel's slot. */
  lemma UnblockAt(width: nat, height: nat, blocks: seq<seq<u8>>, k: nat)
    requires ValidSize(width, height) && |blocks| == BlockCount(width, height)
    requires forall i :: 0 <= i < |blocks| ==> |blocks[i]| == 64
    requires k < width * height * 4
    ensures k / 4 < width * height && BlockOf(width, k / 4) < |blocks|
    ensures Unblock(width, height, blocks)[k] == blocks[BlockOf(width, k / 4)][4 * SlotOf(width, k / 4) + k % 4]
  {
    DivBelow(k, width * height, 4);
    BlockOfBelow(width, height, k / 4);
    assert Unblock(width, height, blocks)[k] == UnblockByte(width, height, blocks, k);
  }

  /** Column x, row y of the block at (gx, gy): the four bytes decompress
      writes from the byte offset it computes are exactly the bytes of the
      pixel at slot 4y + x of that block. */
  lemma ScatterStep(width: nat, height: nat, gx: nat, gy: nat, x: nat, y: nat, px: nat, py: nat, b: nat)
    requires ValidSize(width, height) && gx < width / 4 && gy < height / 4 && x < 4 && y < 4
    requires px == x + gx * 4 && py == y + gy * 4 && b == px * 4 + py * 4 * width
    ensures b + 3 < width * height * 4 && b % 4 == 0
    ensures forall k :: 0 <= k < width * height * 4 ==>
      ((BlockOf(width, k / 4) == BlockNumber(width, gx, gy) && SlotOf(width, k / 4) == 4 * y + x)
        <==> b <= k < b + 4)
  {
    SourceOffset(width, height, gx, gy, x, y, px, py);
    var pixel := PixelAt(width, gx, gy, 4 * y + x);
    assert b == 4 * pixel;
    forall k | 0 <= k < width * height * 4
      ensures (BlockOf(width, k / 4) == BlockNumber(width, gx, gy) && SlotOf(width, k / 4) == 4 * y + x)
        <==> b <= k < b + 4
    {
      DivBelow(k, width * height, 4);
      PixelOfSlot(width, height, k / 4, gx, gy, 4 * y + x);
      QuarterIs(k, pixel);
    }
  }

  /** Byte k belongs to pixel p exactly when it is one of p's four bytes. */
  lemma QuarterIs(k: nat, p: nat)
    ensures k / 4 == p <==> 4 * p <= k < 4 * p + 4
  {
    assert k == 4 * (k / 4) + k % 4;
  }

  /** The output after the first n slots of the block at (gx, gy) have gone
      to their pixels: those bytes hold the block's, every other byte what
      it held before. */
  ghost predicate ScatteredUpTo(width: nat, height: nat, gx: nat, gy: nat, block: seq<u8>,
                                before: seq<u8>, after: seq<u8>, n: nat)
    requires ValidSize(width, height) && |block| == 64
    requires |before| == |after| == width * height * 4
  {
    forall k :: 0 <= k < |after| ==>
      after[k] == if BlockOf(width, k / 4) == BlockNumber(width, gx, gy) && SlotOf(width, k / 4) < n
                  then block[4 * SlotOf(width, k / 4) + k % 4] else before[k]
  }

  /** Writing slot 4y + x to the four bytes from offset b extends the
      scattered slots by one. */
  lemma ScatterAdvance(width: nat, height: nat, gx: nat, gy: nat, x: nat, y: nat, px: nat, py: nat, b: nat,
                       block: seq<u8>, before: seq<u8>, mid: seq<u8>, after: seq<u8>)
    requires ValidSize(width, height) && gx < width / 4 && gy < height / 4 && x < 4 && y < 4
    requires px == x + gx * 4 && py == y + gy * 4 && b == px * 4 + py * 4 * width
    requires |block| == 64 && |before| == |mid| == |after| == width * height * 4
    requires ScatteredUpTo(width, height, gx, gy, block, before, mid, 4 * y + x)
    requires forall k :: 0 <= k < |after| ==>
      after[k] == if b <= k < b + 4 then block[4 * (4 * y + x) + (k - b)] else mid[k]
    ensures ScatteredUpTo(width, height, gx, gy, block, before, after, 4 * y + x + 1)
  {
    ScatterStep(width, height, gx, gy, x, y, px, py, b);
    forall k | 0 <= k < |after|
      ensures after[k] == if BlockOf(width, k / 4) == BlockNumber(width, gx, gy) && SlotOf(width, k / 4) < 4 * y + x + 1
                          then block[4 * SlotOf(width, k / 4) + k % 4] else before[k]
    {
      if b <= k < b + 4 {
        assert k % 4 == k - b;
      }
    }
  }

  /** The two inner loops of decompress: slot 4y + x of the decompressed
      block goes to column x, row y of the block at grid position (gx, gy);
      no other byte of the output changes. */
  method ScatterBlock(width: nat, height: nat, gx: nat, gy: nat, block: seq<u8>, out: array<u8>)
    requires ValidSize(width, height) && gx < width / 4 && gy < height / 4
    requires |block| == 64 && out.Length == width * height * 4
    modifies out
    ensures forall k :: 0 <= k < out.Length ==>
      out[k] == if BlockOf(width, k / 4) == BlockNumber(width, gx, gy)
                then block[4 * SlotOf(width, k / 4) + k % 4] else old(out[k])
  {
    var pixelX := gx * 4;
    var pixelY := gy * 4;
    var j := 0;
    for y := 0 to 4
      invariant j == 16 * y
      invariant ScatteredUpTo(width, height, gx, gy, block, old(out[..]), out[..], 4 * y)
    {
      for x := 0 to 4
        invariant j == 16 * y + 4 * x
        invariant ScatteredUpTo(width, height, gx, gy, block, old(out[..]), out[..], 4 * y + x)
      {
        var px := x + pixelX;
        var py := y + pixelY;
        var baseOffset := px * 4 + py * 4 * width;
        ScatterStep(width, height, gx, gy, x, y, px, py, baseOffset);
        ghost var mid := out[..];
        out[baseOffset] := block[j];
        out[baseOffset + 1] := block[j + 1];
        out[baseOffset + 2] := block[j + 2];
        out[baseOffset + 3] := block[j + 3];
        ScatterAdvance(width, height, gx, gy, x, y, px, py, baseOffset, block, old(out[..]), mid, out[..]);
        j := j + 4;
      }
    }
  }
}

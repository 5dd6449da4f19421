# dxtn in Dafny

A model of the S3TC texture codec `dxtn`, with its three formats DXT1, DXT3
and DXT5 (BC1, BC2 and BC3 in the S3TC chapter of the Khronos Data Format
Specification 1.1). The model covers four parts of the library:

- the RGB565 helpers and palette generators of `DXTUtils.js`:
  - `getComponentsFromRGB565` and `makeRGB565`;
  - `generateDXT1Lookup` and `generateDXT5AlphaLookup`;
  - `findNearestOnLookup`.
- the block compressors `compressBlockDXT1/3/5` of `DXT.js`. Each turns 16
  RGBA pixels (64 bytes) into 8 or 16 compressed bytes.
- the block decompressors `decompressBlockDXT1/3/5` of `DXT.js`. Each
  writes the 64 bytes back into a caller's buffer.
- the texture tiler `compress`/`decompress` of `DXT.js`. It checks the
  dimensions and cuts the image into 4x4 blocks. It gathers each block
  right to left, runs the block codec, and scatters the result back left
  to right.

## How the model is built

- Bytes and 16-bit words are subset types of `int`. Masks and shifts of
  non-negative values are written as division and remainder by powers of
  two (`bytes.dfy`).
- Read-only inputs are sequences. The buffers the source fills in place
  are Dafny `array`s, changed by methods that carry `modifies` clauses:
  - the palette lookups;
  - the `out` of every block codec;
  - the block buffers and the output of the tiler.
- Every such method is proved against a specification function of its
  inputs (`EncodeDxt1`, `DecodeDxt5`, `EncodedBlocks`, `DecodedPixels`, …).
  The properties the library promises are lemmas about those functions.
- Files follow the source:
  - `rgb565.dfy`, `palette.dfy` and `nearest.dfy` model `DXTUtils.js`;
  - `dxt1.dfy`, `composite.dfy`, `dxt3.dfy`, `dxt5.dfy`, `grid.dfy` and
    `tiler.dfy` model `DXT.js`;
  - `dxt1_props.dfy`, `dxt5_props.dfy` and `image_props.dfy` hold the
    round-trip theorems.
- Code departs from the S3TC standard in a few places, and the model
  follows the code:
  - RGB565 expansion shifts without bit replication.
  - The punch-through palette puts the midpoint at entry 1 and c1 at entry 2.
  - The DXT5 compressor always stores the least alpha as alpha0. The
    six-interpolant alpha mode is therefore never produced
    (`Dxt5Props.BlockPaletteHasExtremes`).
- The slot layout is a mirror image on each side, and the two cancel:
  - Both block compressors pack the first slot of each row into the high
    bits, and the block decompressors read it from the low bits.
    `Dxt1.Mirror` names that swap within a row.
  - The tiler's right-to-left gather undoes it
    (`ImageProps.HomeBlockHoldsPixel`), so every image pixel comes back
    from its own compressed index.

## Model

| member | source | states |
|---|---|---|
| Rgb565.ComponentsFromRGB565 | DXTUtils.js:106-112 | the expanded channels have their low 3, 2 and 3 bits clear and are at most 0xF8, 0xFC and 0xF8: shifting only, no bit replication |
| Rgb565.MakeRGB565 | DXTUtils.js:114-116 | the packed value holds the top five bits of r in bits 11-15, the top six of g in bits 5-10 and the top five of b in bits 0-4 |
| Rgb565.PackExpanded | DXTUtils.js:106-116 | packing the expansion of any 16-bit colour gives that colour back |
| Rgb565.ExpandPacked | DXTUtils.js:106-116 | expanding a packed colour gives `r & 0xF8`, `g & 0xFC`, `b & 0xF8` |
| Rgb565.MakeMonotone | DXT.js:52-53 | packing is monotone in every channel, so a channel-wise maximum packs to at least the channel-wise minimum |
| Palette.TwoThirds | DXTUtils.js:20-27 | the blend is the floor of (2x + y) / 3 |
| Palette.Half | DXTUtils.js:37-39 | the blend is the floor of (x + y) / 2 |
| Palette.Dxt1Palette | DXTUtils.js:2-54 | the colour lookup is 16 bytes: four RGBA entries |
| Palette.PaletteAt | DXTUtils.js:8-51 | byte 4k + ch of the lookup is channel ch of entry k of the mode chosen by c0 > c1 |
| Palette.PaletteByte | DXTUtils.js:8-51 | channel ch of lookup entry k; its alpha is 0 exactly for entry 3 when c0 <= c1 and 255 otherwise; `Palette.PaletteAt` and `Palette.Dxt1PaletteShape` state the colour channels |
| Palette.EntryByte | DXT.js:178-181 | a slot that holds entry k has byte ch equal to lookup byte 4k + ch |
| Palette.Dxt1PaletteShape | DXTUtils.js:8-51 | entry 0 is c0 expanded and opaque; entries 0-2 are opaque; entry 3 is transparent exactly when c0 <= c1; c1 is entry 1 in four-colour mode and entry 2 in punch-through mode, where entry 3 is (0,0,0,0) |
| Palette.Dxt1BlendsBetween | DXTUtils.js:20-39 | every interpolated channel lies between the endpoints' channels; it is the floored 2/3-1/3 blend (entry 2), the 1/3-2/3 blend (entry 3) or the floored midpoint (punch-through entry 1) |
| Palette.FourColorLiteral | DXTUtils.js:8-29 | for c0 > c1 the lookup is, byte for byte, c0, c1 and the two thirds-blends, all with alpha 255 |
| Palette.PunchThroughLiteral | DXTUtils.js:30-51 | for c0 <= c1 the lookup is, byte for byte, c0, the midpoint and c1 (alpha 255), then transparent black |
| Palette.GenerateDXT1Lookup | DXTUtils.js:2-54 | the caller's 16-byte lookup ends up holding the colour palette of c0 and c1 |
| Palette.RoundDiv | DXTUtils.js:61-71 | `Math.round(n / d)` for an odd d: the result is within 1/2 of n / d, so it is unique |
| Palette.RoundDivBetween | DXTUtils.js:61-71 | the rounded quotient of a value between d·lo and d·hi lies between lo and hi |
| Palette.AlphaBlend | DXTUtils.js:61-71 | a rounded weighted blend of two alphas lies between them |
| Palette.AlphaPalette | DXTUtils.js:56-76 | the alpha lookup has 8 entries |
| Palette.AlphaPaletteShape | DXTUtils.js:56-76 | entries 0 and 1 are a0 and a1 verbatim; for a0 > a1, entries 2-7 are round(((8-k)a0 + (k-1)a1) / 7) and lie between the endpoints; otherwise entries 2-5 are round(((6-k)a0 + (k-1)a1) / 5), between the endpoints, and entries 6 and 7 are 0 and 255 |
| Palette.AlphaEntry | DXTUtils.js:56-76 | entry k of the alpha lookup; every interpolated entry (2-7 when a0 > a1, 2-5 otherwise) lies between a0 and a1 |
| Palette.GenerateDXT5AlphaLookup | DXTUtils.js:56-76 | the caller's 8-byte lookup ends up holding the alpha palette of alpha0 and alpha1 |
| Nearest.ScanNearest | DXTUtils.js:90-101 | a left-to-right scan that replaces its choice only on a strictly smaller distance ends with its start value, or with the first entry of least distance that beats the start bound |
| Nearest.ScanFindsFirstMinimum | DXTUtils.js:87-103 | started above every distance, the scan returns the first entry of least distance |
| Nearest.SquaredDistance | DXTUtils.js:91-95 | the squared RGBA distance is below the search's initial bound (Infinity) |
| Nearest.ColorDistances | DXTUtils.js:90-95 | there is one distance for each whole entry of the lookup |
| Nearest.NearestColor | DXTUtils.js:86-104 | the index is below lookup.length / 4; no entry is nearer; every earlier entry is strictly farther; it is 0 for an empty lookup |
| Nearest.FindNearestOnLookup | DXTUtils.js:86-104 | the loop returns the first entry of least squared distance |
| Nearest.AlphaDistances | DXT.js:128-129 | there is one absolute alpha difference for each entry of the alpha lookup |
| Nearest.NearestAlpha | DXT.js:124-136 | the index is inside the lookup; no entry's alpha is nearer; every earlier entry is strictly farther |
| Nearest.NearestAlphaIndex | DXT.js:125-134 | the inner search loop of the DXT5 compressor returns the first entry of least absolute difference |
| Dxt1.Pixel | DXT.js:71-73 | pixel j of a block is a four-byte colour |
| Dxt1.Mirror | DXT.js:173-176 | the slot read back for slot s lies in the same row, at column 3 - s % 4 (the packing side is DXT.js:82-85) |
| Dxt1.ScanAlphaBounds | DXT.js:34-41 | the first loop's minA and maxA bound every alpha seen, and each is taken by some pixel unless it kept its start value |
| Dxt1.ScanChannelBounds | DXT.js:34-50 | the colour accumulators bound each channel of every pixel with non-zero alpha and are taken by such a pixel; with no such pixel they keep 0 and 255 |
| Dxt1.IndicesUpTo | DXT.js:70-75 | the second loop pushes one index for each pixel seen |
| Dxt1.Indices | DXT.js:70-75 | there is one palette index for each of the 16 pixels |
| Dxt1.Block | DXT.js:77-85 | the compressed block is 8 bytes |
| Dxt1.EncodeWithEndpoints | DXT.js:65-85 | the compressed block for given endpoints is 8 bytes |
| Dxt1.EncodeDxt1 | DXT.js:23-88 | compressBlockDXT1 writes 8 bytes, with the endpoints it chooses as written (`Dxt1.Endpoints`) |
| Dxt1.Endpoints | DXT.js:52-63 | the endpoints compressBlockDXT1 chooses, 0xFFFF for c1 of a fully transparent block included; what they promise is stated by `Dxt1Props.TransparencySelectsPunchThrough`, `Dxt1Props.OpaqueKeepsOrder` and `Dxt1Props.AllTransparentEndpointsAsWritten` |
| Dxt1.CorrectedEndpoints | DXT.js:55-62 | the corrected endpoints differ from those as written only for a block whose every alpha is 0 without alpha suppression, and there they are (0, 0) |
| Dxt1.EncodeDxt1Corrected | DXT.js:23-88 | the corrected compressor writes 8 bytes; `Dxt1Props.FullyTransparentBlock` states that it keeps a fully transparent block transparent |
| Dxt1.ScanPixels | DXT.js:34-50 | the first loop's bounds; `Dxt1.ScanAlphaBounds` and `Dxt1.ScanChannelBounds` state that they bound every pixel and are taken by one |
| Dxt1.Accumulate | DXT.js:34-50 | one step of the first loop: the alpha bounds widen to cover the pixel's alpha; a pixel of alpha 0 changes nothing else, any other pixel widens the colour bounds to cover its channels |
| Dxt1.PackCodes | DXT.js:82-85 | packs four 2-bit indices into a row byte; `Dxt1Props.CrumbOfPack` states that the decoder's shift and mask give each back |
| Dxt1.Word | DXT.js:168-169 | a 16-bit endpoint read little-endian: its low byte is data[at] and its high byte data[at+1] |
| Dxt1.Code | DXT.js:173-176 | the 2-bit code of slot s; `Dxt1Props.BlockCode` states that it is the index stored for pixel Mirror(s) |
| Dxt1.DecodeSlots | DXT.js:173-182 | the first n decoded slots are 4n bytes |
| Dxt1.DecodeDxt1 | DXT.js:165-185 | decompressBlockDXT1 writes 64 bytes |
| Dxt1.CompressBlockDXT1 | DXT.js:23-88 | bytes 0-7 of `out` become the compressed block and the rest of `out` is unchanged |
| Dxt1.ChooseEndpoints | DXT.js:24-63 | the scan loop and the endpoint choice give `Dxt1.Endpoints`, the endpoints as written: maximum and minimum packed colour, swapped when some alpha is below 127 and alpha is not suppressed, with c1 = 0xFFFF when every alpha is 0 |
| Dxt1.FindIndices | DXT.js:68-75 | the index loop yields the nearest lookup entry of each pixel, in pixel order |
| Dxt1.DecompressBlockDXT1 | DXT.js:165-185 | returns false and writes nothing unless the input is exactly 8 bytes; otherwise `out` holds the decoded block |
| Dxt1.FillSlots | DXT.js:173-182 | the slot loop writes all 16 slots, each as the lookup entry its 2-bit code selects |
| Dxt1Props.DecodeSlotsAt | DXT.js:173-182 | decoded slot s is the lookup entry selected by the code of slot s |
| Dxt1Props.CrumbOfPack | DXT.js:82-85 | unpacking a row byte gives back its four indices, the last one in the low bits (read back as at DXT.js:176) |
| Dxt1Props.BlockWords | DXT.js:77-80 | c0 and c1 are written little-endian and read back as the same 16-bit values (read back as at DXT.js:168-169) |
| Dxt1Props.BlockRow | DXT.js:82-85 | byte 4 + r packs the indices of pixels 4r to 4r + 3 |
| Dxt1Props.BlockCode | DXT.js:82-85 | the decoder reads, for slot s, the index the encoder stored for pixel Mirror(s) (read back as at DXT.js:174-176) |
| Dxt1Props.IndicesAt | DXT.js:70-75 | the index of pixel j is its nearest lookup entry |
| Dxt1Props.EncodeWithEndpointsRoundTrip | DXT.js:65-185 | for any endpoints, slot s decodes to the palette entry nearest pixel Mirror(s), with no entry nearer and the first such entry on a tie |
| Dxt1Props.Dxt1RoundTrip | DXT.js:23-185 | slot s of a block compressed as written decodes to the entry of the palette of its endpoints nearest pixel Mirror(s), with no entry nearer and every earlier entry strictly farther |
| Dxt1Props.PackedBoundsOrdered | DXT.js:40-53 | once some pixel has non-zero alpha, the packed maximum colour is at least the packed minimum |
| Dxt1Props.TransparencySelectsPunchThrough | DXT.js:52-63 | a pixel with alpha below 127 makes c0 <= c1 when alpha is not suppressed, so the decoder uses the punch-through palette (the mode test is DXTUtils.js:8) |
| Dxt1Props.OpaqueKeepsOrder | DXT.js:40-63 | with alpha suppressed, or no alpha below 127, and some pixel with non-zero alpha: c0 and c1 are the packed maximum and minimum, and c0 >= c1 |
| Dxt1Props.SolidScan | DXT.js:34-50 | for a block of one opaque colour, the scan finds that colour as maximum and minimum, with alpha 255 |
| Dxt1Props.SolidChannels | DXT.js:34-38 | every pixel of a solid opaque block has the block's colour and alpha 255 |
| Dxt1Props.SolidNearest | DXTUtils.js:30-104 | against the palette of a colour packed twice, the nearest entry to that opaque colour is its quantised self |
| Dxt1Props.SolidPalette | DXTUtils.js:30-51 | the palette of a colour packed twice is the quantised colour three times, then transparent black |
| Dxt1Props.QuantisedNearerThanClear | DXTUtils.js:91-97 | an opaque colour is strictly nearer its quantised self than transparent black |
| Dxt1Props.NearestOfTriple | DXTUtils.js:86-104 | when the first three entries are the same colour and entry 0 beats entry 3, the nearest entry is that colour |
| Dxt1Props.SolidOpaqueBlock | DXT.js:23-185 | a block of one opaque colour decodes, in every slot, to that colour with its RGB565 low bits cleared and alpha 255 |
| Dxt1Props.AllTransparentEndpointsAsWritten | DXT.js:52-63 | as written, a block whose every alpha is 0 gets 0xFFFF for both endpoints |
| Dxt1Props.WhitePalette | DXTUtils.js:30-51 | two 0xFFFF endpoints give opaque (248,252,248) three times, then transparent black |
| Dxt1Props.ClearWhiteDistances | DXTUtils.js:91-95 | a white pixel of alpha 0 is at squared distance 65132 from the opaque entry and 195075 from transparent black |
| Dxt1Props.ClearWhiteNearestOpaque | DXTUtils.js:86-104 | against that palette, the nearest entry of a white pixel of alpha 0 is opaque |
| Dxt1Props.NearestOpaqueWhenNearer | DXTUtils.js:86-104 | if the three first entries are opaque and entry 0 beats entry 3, the nearest entry is opaque |
| Dxt1Props.TransparentWhiteDecodesOpaqueAsWritten | DXT.js:55-63 | compressBlockDXT1 as written, then decompressBlockDXT1, give a white pixel of alpha 0 in a fully transparent block back with alpha 255 |
| Dxt1Props.TransparentNearestBlack | DXTUtils.js:30-104 | against the palette of two black endpoints, a pixel of alpha 0 is nearest the transparent entry |
| Dxt1Props.BlackPalette | DXTUtils.js:30-51 | two black endpoints give opaque black three times, then transparent black |
| Dxt1Props.BlackDistances | DXTUtils.js:91-95 | every opaque black entry is strictly farther than transparent black from a pixel of alpha 0 |
| Dxt1Props.FullyTransparentBlock | DXT.js:55-63 | the corrected compressor `Dxt1.EncodeDxt1Corrected` gives a fully transparent block back as (0,0,0,0) in every slot |
| Dxt1Props.AllTransparentEndpoints | DXT.js:55-63 | the corrected endpoints of a fully transparent block without alpha suppression are both 0 |
| Composite.Slice | DXT.js:189 | `data.slice(from, to)` clamps both bounds to the input's length (also DXT.js:201) |
| Composite.SliceTail | DXT.js:189 | `data.slice(8, 16)` is a whole 8-byte colour block exactly when the input has at least 16 bytes, and then it is bytes 8-15 (also DXT.js:201) |
| Composite.ColourTail | DXT.js:188-189 | the buffer after the colour tail is decoded is 64 bytes (also DXT.js:200-201) |
| Composite.SetAlphas | DXT.js:191-194 | the buffer after the alpha overwrite is 64 bytes (also DXT.js:207-223) |
| Composite.SetAlphasAt | DXT.js:191-194 | the alpha byte of each slot is the new alpha, and the colour bytes are unchanged (also DXT.js:207-223) |
| Composite.BlockColour | DXT.js:187-226 | the colour bytes of a 16-byte block decode exactly as its 8-byte colour tail does alone, whatever alphas are set |
| Dxt3.ExplicitAlpha | DXT.js:98-99 | the explicit-alpha half is 8 bytes |
| Dxt3.ExplicitAlphaAt | DXT.js:98-99 | byte 2i holds the high nibbles of pixels 4i + 2 and 4i + 3; byte 2i + 1 those of pixels 4i and 4i + 1 |
| Dxt3.EncodeDxt3 | DXT.js:90-102 | compressBlockDXT3 writes 16 bytes |
| Dxt3.Dxt3Alphas | DXT.js:191-194 | the decoder produces one alpha per slot |
| Dxt3.Dxt3Alpha | DXT.js:192-193 | the alpha of slot s is a nibble of the input shifted to the high four bits, so a multiple of 16; `Dxt3.ExplicitAlphaDecodes` states which nibble |
| Dxt3.DecodeDxt3 | DXT.js:187-197 | decompressBlockDXT3 leaves 64 bytes |
| Dxt3.CompressBlockDXT3 | DXT.js:90-102 | bytes 0-15 of `out` become the DXT3 block and the rest of `out` is unchanged |
| Dxt3.MoveColourAndStoreAlpha | DXT.js:94-100 | the loop moves the colour block up to bytes 8-15 and puts the explicit alpha in bytes 0-7 |
| Dxt3.DecompressBlockDXT3 | DXT.js:187-197 | `out` ends up holding the DXT3 decoding of the input over what it held before |
| Dxt3.EncodeDxt3Halves | DXT.js:91-100 | bytes 0-7 are the explicit alpha; bytes 8-15 are the alpha-suppressed DXT1 block |
| Dxt3.Dxt3AlphaPrefix | DXT.js:191-194 | the decoded alphas depend on the first 8 bytes only |
| Dxt3.ExplicitAlphaRow | DXT.js:98-99 | the four slots of row i decode to the high nibbles of the alphas of pixels 4i + 3, 4i + 2, 4i + 1 and 4i (read back as at DXT.js:192-193) |
| Dxt3.ExplicitAlphaDecodes | DXT.js:98-99 | slot s decodes to `alpha & 0xF0` of pixel Mirror(s) (read back as at DXT.js:192-193) |
| Dxt3.Dxt3AlphaRoundTrip | DXT.js:90-197 | the decoded alpha of slot s is the source alpha of pixel Mirror(s) with its low four bits cleared |
| Dxt3.Dxt3ColourIsDxt1 | DXT.js:189 | the colour bytes decode exactly as the alpha-suppressed DXT1 block (written at DXT.js:92) |
| Dxt3.Dxt3ColourRoundTrip | DXT.js:90-197 | the colour bytes of slot s are those of the alpha-suppressed palette entry nearest pixel Mirror(s) |
| Dxt5.BlockAlphaPalette | DXT.js:118-121 | the compressor's alpha palette has 8 entries |
| Dxt5.AlphaCodes | DXT.js:124-136 | there is one alpha index for each pixel |
| Dxt5.Pack24 | DXT.js:138-145 | eight 3-bit fields pack into 24 bits |
| Dxt5.Group | DXT.js:138-157 | `out234` and `out567` fit in 24 bits |
| Dxt5.GroupBytes | DXT.js:146-148 | a 24-bit group is three bytes (also DXT.js:158-160) |
| Dxt5.AlphaBlock | DXT.js:118-160 | the alpha half is 8 bytes |
| Dxt5.AlphaHeader | DXT.js:107-160 | the alpha half of a block is 8 bytes |
| Dxt5.EncodeDxt5 | DXT.js:104-163 | compressBlockDXT5 writes 16 bytes |
| Dxt5.Dxt5AlphaPalette | DXT.js:203-206 | the decoder's alpha palette has 8 entries, also for an input too short to hold both endpoints |
| Dxt5.Dxt5Alphas | DXT.js:207-223 | the decoder produces one alpha per slot |
| Dxt5.Field | DXT.js:207-223 | the decoder's extraction of 3-bit field t from a group of three bytes; `Dxt5Props.Pack24Fields` states that it recovers every field the compressor packed |
| Dxt5.Dxt5Code | DXT.js:207-223 | the 3-bit alpha index of slot s; `Dxt5Props.AlphaBlockDecodes` states that it is the index stored for pixel Mirror(s) |
| Dxt5.DecodeDxt5 | DXT.js:199-226 | decompressBlockDXT5 leaves 64 bytes |
| Dxt5.CompressBlockDXT5 | DXT.js:104-163 | bytes 0-15 of `out` become the DXT5 block and the rest of `out` is unchanged |
| Dxt5.CompressAlpha | DXT.js:107-160 | after the colour block is written, bytes 0-7 become the alpha half and the colour block moves to bytes 8-15 |
| Dxt5.StoreAlphaBlock | DXT.js:118-160 | bytes 0-7 become the alpha block of the given endpoints and the chosen indices; bytes from 8 on are unchanged |
| Dxt5.Splice | DXT.js:114-119 | moving bytes 0-7 up to 8-15 and then rewriting bytes 0-7 leaves the old bytes 0-7 at 8-15 and the rest unchanged |
| Dxt5.AlphaRange | DXT.js:107-112 | the first loop yields the alpha accumulators of the DXT1 scan |
| Dxt5.MoveColourUp | DXT.js:114-116 | the copy loop puts bytes 0-7 at 8-15 and changes nothing else |
| Dxt5.FindAlphaIndices | DXT.js:123-136 | the nested loop records the nearest alpha index of every pixel in a fresh buffer |
| Dxt5.StoreIndexGroups | DXT.js:138-160 | bytes 2-7 receive the packed index groups; bytes 0-1 and from 8 on are unchanged |
| Dxt5.DecompressBlockDXT5 | DXT.js:199-226 | `out` ends up holding the DXT5 decoding of the input over what it held before |
| Dxt5Props.LowByteFields | DXT.js:212-214 | the first byte of a group splits back into fields 0, 1 and the low bits of field 2 (written at DXT.js:146) |
| Dxt5Props.MidByteFields | DXT.js:209-212 | the second byte splits back into the high bit of field 2, fields 3 and 4, and the low bit of field 5 (written at DXT.js:147) |
| Dxt5Props.HighByteFields | DXT.js:207-209 | the third byte splits back into the high bits of field 5 and fields 6 and 7 (written at DXT.js:148) |
| Dxt5Props.Pack24Bytes | DXT.js:138-148 | the three bytes of a packed group hold its fields at the bit positions the decoder reads |
| Dxt5Props.Pack24Fields | DXT.js:138-223 | the decoder's field extraction recovers every packed field |
| Dxt5Props.GroupSlot | DXT.js:138-223 | slot s reads field s % 8 of group s / 8, which holds the index of pixel Mirror(s) |
| Dxt5Props.MirrorInGroup | DXT.js:138-157 | mirroring keeps a slot within its group of eight |
| Dxt5Props.AlphaBlockDecodes | DXT.js:118-223 | from any alpha block, slot s reads the index of pixel Mirror(s), and the palette is built from the two stored endpoints |
| Dxt5Props.Dxt5CodeRoundTrip | DXT.js:104-226 | the decoder reads for slot s the index chosen for pixel Mirror(s) and rebuilds the compressor's palette |
| Dxt5Props.Dxt5AlphaRoundTrip | DXT.js:104-226 | slot s decodes to the palette entry nearest the alpha of pixel Mirror(s): no entry is nearer and every earlier entry is strictly farther |
| Dxt5Props.DecodedAlpha | DXT.js:207-223 | the decoded alpha of slot s is the palette entry its 3-bit index selects |
| Dxt5Props.BlockPaletteHasExtremes | DXT.js:107-121 | alpha0 <= alpha1 always, so the palette is the four-interpolant one with entries 6 and 7 equal to 0 and 255 (the palette is DXTUtils.js:60-74) |
| Dxt5Props.Dxt5Endpoints | DXT.js:107-119 | bytes 0 and 1 are the least and greatest alpha of the block, each taken by some pixel |
| Dxt5Props.EndpointBytes | DXT.js:107-119 | bytes 0 and 1 are the alpha accumulators |
| Dxt5Props.AlphaRangeAttained | DXT.js:107-112 | over a block, the accumulators bound every alpha and each is taken by some pixel (the same accumulators as DXT.js:34-41) |
| Dxt5Props.Dxt5ExactAlpha | DXT.js:104-226 | an alpha equal to the block's least or greatest alpha, or to 0 or 255, decodes unchanged |
| Dxt5Props.Dxt5ColourRoundTrip | DXT.js:106 | the colour bytes of slot s are those of the alpha-suppressed palette entry nearest pixel Mirror(s) (read back as at DXT.js:201) |
| Grid.SlotOf | DXT.js:284-298 | the slot of a pixel is one of 16 |
| Grid.BlockCoordinates | DXT.js:241-243 | block number i lies at column i % w and row i / w of the block grid (also DXT.js:282-285) |
| Grid.BlockNumberInverse | DXT.js:241-243 | numbering blocks row-major is one to one |
| Grid.PixelAtInverse | DXT.js:246-250 | each block position and slot names a pixel inside the image, whose block and slot are those (also DXT.js:288-292) |
| Grid.PixelDecomposition | DXT.js:246-250 | each pixel inside the image is named by its block position and slot (also DXT.js:288-292) |
| Grid.SourceOffset | DXT.js:248-250 | `px * 4 + py * 4 * width` is the byte offset of the pixel at slot 4y + x of the block, inside the image (also DXT.js:290-292) |
| Grid.Gather | DXT.js:245-257 | the gathered RGBA block is 64 bytes |
| Grid.GatherStep | DXT.js:246-256 | column x, row y fills bytes 16y + 4(3 - x) .. + 4 from the image pixel there |
| Grid.GatherAt | DXT.js:245-257 | byte c of slot q of the gathered block is byte c of the image pixel at slot Mirror(q) of that block |
| Grid.GatherBlock | DXT.js:245-257 | the two inner loops fill the RGBA buffer with the gathered block |
| Grid.NumberedGather | DXT.js:241-257 | block number i gathers to 64 bytes |
| Grid.CompressedBlocks | DXT.js:241-263 | there is one compressed block per grid block, each of the block size |
| Grid.CompressedBlock | DXT.js:259 | a compressed block has the block size |
| Grid.Flatten | DXT.js:260-262 | blocks laid end to end fill (number of blocks) x (block size) bytes |
| Grid.FlattenAt | DXT.js:260-262 | byte j of block i sits at i·size + j |
| Grid.FlattenSlice | DXT.js:260-262 | slicing block i out of the flattened blocks gives block i back (sliced as at DXT.js:283) |
| Grid.FlattenExtend | DXT.js:260-262 | one pass of the copy loop extends the correct prefix of the output by one block |
| Grid.EncodedBlocks | DXT.js:234-265 | compress's output is (w/4)(h/4) x block size bytes |
| Grid.CopyBlock | DXT.js:260-262 | the copy loop writes the block at its offset and changes nothing else |
| Grid.BlockData | DXT.js:283 | `data.slice(i·size, (i + 1)·size)` is one whole block |
| Grid.DecodedBlocks | DXT.js:282-283 | there is one decoded 64-byte block per input block |
| Grid.DecodedBlock | DXT.js:283 | a decoded block is 64 bytes |
| Grid.Unblock | DXT.js:279-299 | the assembled image is width x height x 4 bytes |
| Grid.DecodedPixels | DXT.js:279-301 | decompress's output is width x height x 4 bytes |
| Grid.PixelOfSlot | DXT.js:284-292 | a pixel is at slot s of the block at (gx, gy) exactly when it is the pixel that slot names |
| Grid.BlockOfBelow | DXT.js:282-285 | every pixel's block number is below the block count |
| Grid.UnblockAt | DXT.js:287-298 | byte k of the image is byte 4·slot + k % 4 of its pixel's decoded block |
| Grid.ScatterStep | DXT.js:288-295 | the four bytes written for column x, row y are exactly the bytes of the pixel at slot 4y + x of the block |
| Grid.ScatterAdvance | DXT.js:288-297 | writing one slot extends the set of bytes of the block already written by that slot's four bytes |
| Grid.ScatterBlock | DXT.js:287-298 | the two inner loops write each byte of the block's pixels from its slot and leave every other byte unchanged |
| Tiler.DimensionError | DXT.js:229-231 | no error exactly when the sizes are valid; otherwise the first failed check is reported: width not divisible by 4, then height not divisible by 4, then a side below 4 (also DXT.js:269-271) |
| Tiler.EncodeBlock | DXT.js:23-163 | each format's block compressor, as written, yields a block of its size: 8 bytes for DXT1, 16 for DXT3 and DXT5 |
| Tiler.Blank | DXT.js:280 | the fresh block buffer is 64 zero bytes |
| Tiler.DecodeBlock | DXT.js:165-226 | each format's block decompressor yields 64 bytes |
| Tiler.PriorIgnored | DXT.js:187-226 | a whole DXT3 or DXT5 block overwrites all of the reused block buffer |
| Tiler.Encoder | DXT.js:304-349 | the exported compress of each format calls that format's block compressor |
| Tiler.Decoder | DXT.js:304-349 | the exported decompress of each format calls that format's block decompressor |
| Tiler.EncodeImage | DXT.js:228-266 | compress succeeds exactly when the sizes are valid and pixels.length = w·h·4; it then returns (w/4)(h/4) x block size bytes; otherwise it fails with the first failed check |
| Tiler.DecodeImage | DXT.js:268-302 | decompress succeeds exactly when the sizes are valid and data.length = (w/4)(h/4) x block size; it then returns w·h·4 bytes; otherwise it fails with the first failed check |
| Tiler.CompressBlock | DXT.js:259 | the block compressor call fills the block buffer with the format's compressed block |
| Tiler.DecompressBlock | DXT.js:283 | the block decompressor call fills the block buffer with the decoded block |
| Tiler.Compress | DXT.js:228-266 | the method fails exactly as compress's specification does, or returns a fresh buffer holding its bytes |
| Tiler.CompressBlocks | DXT.js:234-265 | the block loop fills a fresh buffer with every compressed block in block order |
| Tiler.CompressBlockAt | DXT.js:242-259 | one iteration gathers block i and compresses it into the block buffer |
| Tiler.Decompress | DXT.js:268-302 | the method fails exactly as decompress's specification does, or returns a fresh buffer holding the image |
| Tiler.DecompressBlocks | DXT.js:279-301 | the block loop fills a fresh buffer with the assembled image, each byte from its pixel's block and slot |
| Tiler.DecompressBlockAt | DXT.js:283 | one iteration decodes block i of the input into the block buffer |
| ImageProps.MirrorTwice | DXT.js:246-247 | mirroring a slot twice gives the slot back (scattered as at DXT.js:289) |
| ImageProps.HomeBlock | DXT.js:241-257 | the block holding a pixel gathers to 64 bytes |
| ImageProps.HomeBlockHoldsPixel | DXT.js:245-257 | pixel p sits in its block's RGBA buffer at the mirror of its slot |
| ImageProps.HomeBlockAlpha | DXT.js:245-257 | pixel p's alpha is the alpha of that mirrored slot |
| ImageProps.CodecRoundTrip | DXT.js:228-302 | for any block codec, byte c of pixel p after compress then decompress is byte c of slot SlotOf(p) of the codec's round trip of p's gathered block |
| ImageProps.PixelRoundTrip | DXT.js:228-350 | for every format, compress succeeds, decompress accepts its output, and each byte comes from the block codec's round trip of its own block |
| ImageProps.Channel | DXT.js:178-181 | byte c of slot s of an RGBA block |
| ImageProps.ImageChannel | DXT.js:228-302 | whatever a block codec keeps of a channel of each pixel, the whole image keeps of that pixel |
| ImageProps.Dxt1BlockColour | DXT.js:23-185 | the DXT1 block codec gives slot s back as the nearest palette entry of pixel Mirror(s) |
| ImageProps.Dxt1KeepsColour | DXT.js:304-318 | the DXT1 codec as compress and decompress call it keeps each channel as the nearest palette entry |
| ImageProps.Dxt1ImageChannel | DXT.js:228-318 | channel ch of pixel p after a DXT1 image round trip is that of the entry of its block's palette nearest p |
| ImageProps.Dxt1ImageRoundTrip | DXT.js:241-298 | compress and decompress succeed, and every image pixel comes back as the entry of its block's palette (from the endpoints as written) nearest the pixel itself, with no entry nearer and every earlier entry strictly farther |
| ImageProps.Dxt3BlockAlpha | DXT.js:90-197 | the DXT3 block codec gives slot s the alpha of pixel Mirror(s) with its low four bits cleared |
| ImageProps.Dxt3KeepsAlphaNibble | DXT.js:320-333 | the DXT3 codec as compress and decompress call it keeps the high nibble of each alpha |
| ImageProps.Dxt3ImageAlpha | DXT.js:228-302 | after a DXT3 image round trip every pixel's alpha is its source alpha & 0xF0 (through the DXT3 block codec, DXT.js:91-100 and 188-194) |
| ImageProps.Dxt5BlockAlpha | DXT.js:104-226 | the DXT5 block codec gives slot s the entry of the block's alpha palette nearest pixel Mirror(s) |
| ImageProps.Dxt5KeepsNearestAlpha | DXT.js:335-348 | the DXT5 codec as compress and decompress call it keeps each alpha as its nearest palette entry |
| ImageProps.Dxt5ImageAlpha | DXT.js:228-302 | after a DXT5 image round trip every alpha is the entry of its block's alpha palette nearest the source alpha: no entry nearer, every earlier one strictly farther (through the DXT5 block codec, DXT.js:106-160 and 199-224) |
| ImageProps.BlockNearestColour | DXT.js:92-106 | the DXT3 and DXT5 block codecs give slot s the colour of the alpha-suppressed palette entry nearest pixel Mirror(s) (read back at DXT.js:189 and 201) |
| ImageProps.KeepsNearestColour | DXT.js:320-348 | those codecs as compress and decompress call them keep each colour channel as the nearest palette entry |
| ImageProps.ImageColour | DXT.js:228-302 | after a DXT3 or DXT5 image round trip, each colour channel of a pixel is that of the alpha-suppressed palette entry of its block nearest the pixel (through the colour half written at DXT.js:92 and 106) |

## Left out

- `getError` (DXTUtils.js:78-84) is never called by the codec.
- `shiftColorValue` (DXTUtils.js:118-124) is never called by the codec. It also reads a component name that `getComponentsFromRGB565` does not return.
- index.js and index.d.ts are not part of this model; they only re-export `DXT.js`.
- Floating-point colour arithmetic is not modelled. The source divides the expanded channels by 255, blends them and multiplies back before `Math.floor`. The model uses exact integers on the 8-bit values instead (`TwoThirds`, `Half`, `ComponentsFromRGB565`). A float floor landing one below the exact value is not modelled.
- `Math.round(n / 7)` and `Math.round(n / 5)` are modelled exactly (`RoundDiv`); with an odd divisor there is never a tie.
- The module-level scratch buffers (DXT.js:18-21) are not shared. Every call works on fresh local arrays, so no aliasing between calls is modelled.
- In the tiler, the DXT1 block decompressor's `false` result for a wrong-sized block cannot happen: every block is sliced at the block size.
- The block compressors take exactly 64 input bytes. The source loops to `pixels.length`, but every caller passes a 64-byte block.
- The optional `outArray`/`out` arguments are always supplied in the model; the `new Uint8Array` default is the same code on a fresh buffer.
- `compress` and `decompress` get the block codec as a function value in the source. The model passes the format, and ghost function parameters stand for the codec in the loop proofs.
- The thrown `Error`s become a `Result` error value naming the failed check; the message texts are not modelled.
- JavaScript's dynamic typing is not modelled: inputs are sequences of bytes 0..255.

## Findings

| source | as written | input that shows it | evidently intended | confidence | as-written member | corrected member |
|---|---|---|---|---|---|---|
| DXT.js:55-62 | when every alpha is 0 and alpha is not suppressed, both endpoints become 0xFFFF; the palette is then opaque (248,252,248) three times and transparent black | 16 pixels (255,255,255,0): squared distance 65132 to the opaque entry and 195075 to transparent black, so every pixel decodes with alpha 255 | a fully transparent block decodes transparent in every slot | not executed; medium | Dxt1Props.TransparentWhiteDecodesOpaqueAsWritten | Dxt1Props.FullyTransparentBlock |

The codec and the image round trips use the endpoints as written (`Dxt1.Endpoints`). The corrected choice, both endpoints 0, is `Dxt1.CorrectedEndpoints`, used by `Dxt1.EncodeDxt1Corrected`.

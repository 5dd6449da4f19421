/** What the DXT3 and DXT5 block decoders share: the last 8 bytes of a
    16-byte block are a DXT1 colour block, decoded into `out` first, after
    which the 16 alpha bytes of `out` are overwritten from the first 8 bytes. */
module Composite {
  import opened Bytes
  import opened Dxt1

  /** `data[i]` as the decoders' bit masks see it: past the end of the input
      JavaScript reads `undefined`, which every mask turns into 0. */
  function ByteAt(data: seq<u8>, i: nat): u8
  {
    if i < |data| then data[i] else 0
  }

  /** `data.slice(from, to)`: both bounds clamped to the length. */
  function Slice(data: seq<u8>, from: nat, to: nat): (part: seq<u8>)
    requires from <= to
    ensures |part| == if to <= |data| then to - from else if from <= |data| then |data| - from else 0
  {
    var end := if to < |data| then to else |data|;
    var begin := if from < end then from else end;
    data[begin..end]
  }

  /** The tail `data.slice(8, 16)` is a whole colour block exactly when the
      input has at least 16 bytes, and then it is bytes 8 to 15. */
  lemma SliceTail(data: seq<u8>)
    ensures |Slice(data, 8, 16)| == 8 <==> |data| >= 16
    ensures |data| >= 16 ==> Slice(data, 8, 16) == data[8..16]
  {
  }

  /** What `out` holds after decompressBlockDXT1 ran on the tail: the decoded
      colour block when the tail is whole, otherwise `out` as it was. */
  function ColourTail(data: seq<u8>, prior: seq<u8>): (rgba: seq<u8>)
    requires |prior| == 64
    ensures |rgba| == 64
  {
    if |data| >= 16 then DecodeDxt1(data[8..16]) else prior
  }

  /** An RGBA block whose alpha bytes are replaced: slot s gets alphas[s]. */
  function SetAlphas(rgba: seq<u8>, alphas: seq<u8>): (out: seq<u8>)
    requires |rgba| == 64 && |alphas| == 16
    ensures |out| == 64
  {
    seq(64, k requires 0 <= k < 64 => if k % 4 == 3 then alphas[k / 4] else rgba[k])
  }

  /** Byte ch of slot s after the alpha overwrite: the new alpha for ch = 3,
      the colour byte otherwise. */
  lemma SetAlphasAt(rgba: seq<u8>, alphas: seq<u8>, s: nat, ch: nat)
    requires |rgba| == 64 && |alphas| == 16 && s < 16 && ch < 4
    ensures SetAlphas(rgba, alphas)[4 * s + ch] == if ch == 3 then alphas[s] else rgba[4 * s + ch]
  {
    DivModUnique(4 * s + ch, 4, s, ch);
  }

  /** The colour bytes of a 16-byte block made of 8 alpha bytes and a colour
      block are those the colour block decodes to, whatever alphas are then
      set. */
  lemma BlockColour(alpha: seq<u8>, colour: seq<u8>, prior: seq<u8>, alphas: seq<u8>, s: nat, ch: nat)
    requires |alpha| == 8 && |colour| == 8 && |prior| == 64 && |alphas| == 16
    requires s < 16 && ch < 3
    ensures SetAlphas(ColourTail(alpha + colour, prior), alphas)[4 * s + ch] == DecodeDxt1(colour)[4 * s + ch]
  {
    assert (alpha + colour)[8..16] == colour;
    SetAlphasAt(ColourTail(alpha + colour, prior), alphas, s, ch);
  }
}

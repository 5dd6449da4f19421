/** RGB565 packing and expansion (getComponentsFromRGB565 and makeRGB565).
    The source's components are floats in [0,1]; every use multiplies them
    by 255 again, so this model keeps the 8-bit values they stand for. */
module Rgb565 {
  import opened Bytes

  /** An expanded colour: each channel is the 8-bit value the source's
      normalised component stands for. */
  datatype Rgb = Rgb(r: u8, g: u8, b: u8)

  /** Channel 0, 1 or 2 of an expanded colour. */
  function Channel(e: Rgb, ch: nat): u8
    requires ch < 3
  {
    if ch == 0 then e.r else if ch == 1 then e.g else e.b
  }

  /** getComponentsFromRGB565 scaled by 255: the 5-6-5 fields are shifted back
      to the top of a byte, `(c & 0xF800) >> 8`, `(c & 0x07E0) >> 3` and
      `(c & 0x001F) << 3`. The low bits are left zero: no bit replication. */
  function ComponentsFromRGB565(c: u16): (e: Rgb)
    ensures e.r % 8 == 0 && e.g % 4 == 0 && e.b % 8 == 0
    ensures e.r <= 0xF8 && e.g <= 0xFC && e.b <= 0xF8
  {
    Rgb(c / 0x800 * 8, c / 0x20 % 0x40 * 4, c % 0x20 * 8)
  }

  /** makeRGB565: the top five bits of r go to bits 11-15, the top six bits of
      g to bits 5-10 and the top five bits of b to bits 0-4; the fields do not
      overlap, so the source's `|` is an addition. */
  function MakeRGB565(r: u8, g: u8, b: u8): (c: u16)
    ensures c / 0x800 == r / 8 && c / 0x20 % 0x40 == g / 4 && c % 0x20 == b / 8
  {
    var c := r / 8 * 0x800 + g / 4 * 0x20 + b / 8;
    DivModUnique(c, 0x800, r / 8, g / 4 * 0x20 + b / 8);
    DivModUnique(c, 0x20, r / 8 * 0x40 + g / 4, b / 8);
    DivModUnique(r / 8 * 0x40 + g / 4, 0x40, r / 8, g / 4);
    c
  }

  /** Packing an expanded colour gives back the 16-bit value: expansion loses
      nothing. */
  lemma PackExpanded(c: u16)
    ensures var e := ComponentsFromRGB565(c); MakeRGB565(e.r, e.g, e.b) == c
  {
    var e := ComponentsFromRGB565(c);
    DivModUnique(c / 0x20, 0x40, c / 0x800, c / 0x20 % 0x40);
    assert c / 0x20 == c / 0x800 * 0x40 + c / 0x20 % 0x40 by {
      DivModUnique(c, 0x800, c / 0x800, c % 0x800);
      DivModUnique(c % 0x800, 0x20, c % 0x800 / 0x20, c % 0x20);
      DivModUnique(c, 0x20, c / 0x800 * 0x40 + c % 0x800 / 0x20, c % 0x20);
    }
  }

  /** Expanding a packed colour keeps the top 5-6-5 bits of each channel and
      clears the rest: `r & 0xF8`, `g & 0xFC`, `b & 0xF8`. */
  lemma ExpandPacked(r: u8, g: u8, b: u8)
    ensures ComponentsFromRGB565(MakeRGB565(r, g, b)) == Rgb(r - r % 8, g - g % 4, b - b % 8)
  {
  }

  /** Packing is monotone in every channel, so a per-channel maximum packs to
      a value at least that of the per-channel minimum. */
  lemma MakeMonotone(r0: u8, g0: u8, b0: u8, r1: u8, g1: u8, b1: u8)
    requires r0 >= r1 && g0 >= g1 && b0 >= b1
    ensures MakeRGB565(r0, g0, b0) >= MakeRGB565(r1, g1, b1)
  {
    assert r0 / 8 >= r1 / 8 && g0 / 4 >= g1 / 4 && b0 / 8 >= b1 / 8;
  }
}

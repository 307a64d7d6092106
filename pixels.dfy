/**
 * 32-bit pixels seen as four byte lanes (lane i is the byte at address offset i of
 * a little-endian uint32), and the per-pixel adjustments of
 * processIntermediateBitmap: tint, added color and the red/blue swap, including
 * the 64-bit word form of the swap that handles two pixels at once.
 */
module Pixels {
  import opened Geometry

  type Pixel = bv32

  /** The four uint32 tint multipliers mult[0..3], in 8.8 fixed point (256 is 1.0). */
  type TintMult = m: seq<bv32> | |m| == 4 witness [256, 256, 256, 256]

  /** The three added-color bytes add[0..2]. */
  type AddRgb = a: seq<bv8> | |a| == 3 witness [0, 0, 0]

  /** Byte lane i of a pixel. */
  function Lane(p: Pixel, i: nat): bv8
    requires i < 4
  {
    if i == 0 then (p & 0xFF) as bv8
    else if i == 1 then ((p >> 8) & 0xFF) as bv8
    else if i == 2 then ((p >> 16) & 0xFF) as bv8
    else (p >> 24) as bv8
  }

  /** The pixel whose lanes are b0, b1, b2, b3. */
  function Pack(b0: bv8, b1: bv8, b2: bv8, b3: bv8): (p: Pixel)
    ensures Lane(p, 0) == b0 && Lane(p, 1) == b1 && Lane(p, 2) == b2 && Lane(p, 3) == b3
  {
    (b0 as bv32) | ((b1 as bv32) << 8) | ((b2 as bv32) << 16) | ((b3 as bv32) << 24)
  }

  /** A pixel is determined by its four lanes. */
  lemma PackLanes(p: Pixel)
    ensures Pack(Lane(p, 0), Lane(p, 1), Lane(p, 2), Lane(p, 3)) == p
  {
  }

  // ---------------------------------------------------------------- tint

  /** One tinted byte, in uint32 arithmetic: min((b * m) >> 8, 0xff). */
  function TintLane(b: bv8, m: bv32): bv8
  {
    var v := ((b as bv32) * m) >> 8;
    if v > 0xff then 0xff else v as bv8
  }

  function TintPixel(p: Pixel, mult: TintMult): Pixel
  {
    Pack(TintLane(Lane(p, 0), mult[0]), TintLane(Lane(p, 1), mult[1]),
         TintLane(Lane(p, 2), mult[2]), TintLane(Lane(p, 3), mult[3]))
  }

  /**
   * Every lane, alpha included, becomes (b * mult[i]) >> 8 in uint32 arithmetic
   * when that is at most 255, and 255 otherwise.
   */
  lemma TintPixelLanes(p: Pixel, mult: TintMult, i: nat)
    requires i < 4
    ensures var v := ((Lane(p, i) as bv32) * mult[i]) >> 8;
            Lane(TintPixel(p, mult), i) as bv32 == (if v <= 0xff then v else 0xff)
  {
    assert Lane(TintPixel(p, mult), i) == TintLane(Lane(p, i), mult[i]);
  }

  /** Tinting with 1.0 (multiplier 256) on every lane leaves the pixel as it was. */
  lemma TintIdentity(p: Pixel)
    ensures TintPixel(p, [256, 256, 256, 256]) == p
  {
    PackLanes(p);
  }

  // ---------------------------------------------------------- added color

  /** One byte with a saturating add: min(b + a, 0xff), computed without overflow as the int promotion does. */
  function AddLane(b: bv8, a: bv8): bv8
  {
    var v := (b as bv16) + (a as bv16);
    if v > 0xff then 0xff else v as bv8
  }

  function AddPixel(p: Pixel, add: AddRgb): Pixel
  {
    Pack(AddLane(Lane(p, 0), add[0]), AddLane(Lane(p, 1), add[1]),
         AddLane(Lane(p, 2), add[2]), Lane(p, 3))
  }

  /** Lanes 0..2 become min(b + add[i], 255); lane 3 (alpha) is left alone. */
  lemma AddPixelLanes(p: Pixel, add: AddRgb, i: nat)
    requires i < 4
    ensures i < 3 ==> Lane(AddPixel(p, add), i) as int == Min(Lane(p, i) as int + add[i] as int, 255)
    ensures i == 3 ==> Lane(AddPixel(p, add), i) == Lane(p, 3)
  {
    if i < 3 {
      assert Lane(AddPixel(p, add), i) == AddLane(Lane(p, i), add[i]);
      AddLaneExact(Lane(p, i), add[i]);
    }
  }

  lemma AddLaneExact(b: bv8, a: bv8)
    ensures AddLane(b, a) as int == Min(b as int + a as int, 255)
  {
    WideSum(b, a);
    var v := (b as bv16) + (a as bv16);
    if v <= 0xff {
      NarrowByte(v);
    }
  }

  /** Two bytes never overflow 16 bits. */
  lemma WideSum(b: bv8, a: bv8)
    ensures ((b as bv16) + (a as bv16)) as int == b as int + a as int
  {
  }

  lemma NarrowByte(v: bv16)
    requires v <= 0xff
    ensures (v as bv8) as int == v as int
  {
  }

  /** Adding (0, 0, 0) leaves the pixel as it was. */
  lemma AddIdentity(p: Pixel)
    ensures AddPixel(p, [0, 0, 0]) == p
  {
    PackLanes(p);
  }

  // ------------------------------------------------------- red/blue swap

  /** The scalar swap: one uint32 at a time. */
  function SwapRedBlue(color: Pixel): Pixel
  {
    ((color & 0x00ff0000) >> 16) | (color & 0xff00ff00) | ((color & 0x000000ff) << 16)
  }

  /** Lanes 0 and 2 trade places; lanes 1 and 3 stay. */
  lemma SwapRedBlueLanes(color: Pixel)
    ensures Lane(SwapRedBlue(color), 0) == Lane(color, 2) && Lane(SwapRedBlue(color), 2) == Lane(color, 0)
    ensures Lane(SwapRedBlue(color), 1) == Lane(color, 1) && Lane(SwapRedBlue(color), 3) == Lane(color, 3)
  {
  }

  /** Swapping twice restores the pixel. */
  lemma SwapRedBlueInvolution(p: Pixel)
    ensures SwapRedBlue(SwapRedBlue(p)) == p
  {
    SwapRedBlueLanes(p);
    SwapRedBlueLanes(SwapRedBlue(p));
    PackLanes(p);
    PackLanes(SwapRedBlue(SwapRedBlue(p)));
  }

  /** Two consecutive pixels read as one little-endian uint64: the first is the low half. */
  function Join(first: Pixel, second: Pixel): bv64
  {
    ((second as bv64) << 32) | (first as bv64)
  }

  function Low(w: bv64): Pixel { (w & 0xffff_ffff) as bv32 }
  function High(w: bv64): Pixel { (w >> 32) as bv32 }

  /** The 64-bit swap: two pixels with one masked shift-and-or. */
  function SwapRedBlue64(colors: bv64): bv64
  {
    ((colors & 0x00ff000000ff0000) >> 16) | (colors & 0xff00ff00ff00ff00) | ((colors & 0x000000ff000000ff) << 16)
  }

  /** The 64-bit form swaps each of the two pixels exactly as the scalar form does. */
  lemma SwapRedBlue64Splits(first: Pixel, second: Pixel)
    ensures Low(SwapRedBlue64(Join(first, second))) == SwapRedBlue(first)
    ensures High(SwapRedBlue64(Join(first, second))) == SwapRedBlue(second)
  {
  }
}

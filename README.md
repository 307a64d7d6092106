# Software blitter core: a Dafny model

This project models the core of the Oxygen Engine's software blitter
(`Oxygen/oxygenengine/source/oxygen/drawing/software/Blitter.cpp`), which draws
solid colors and sprites onto a CPU-side 32-bit framebuffer:

- **Cropping** (`applyCropping`). The sprite rectangle `Recti(-pivot, size)` is
  moved to `position` and cut to the viewport. `innerIndent = box.pos - position + pivot`
  then locates the first sprite pixel to read.
- **Dispatch** (`blitColor`, `blitSprite`, `blitIndexed`, `needsIntermediateProcessing`).
  A solid color is filled, alpha-blended or dropped. A sprite is either handed to
  the merge primitive as a zero-copy view, or first staged in the scratch buffer
  and adjusted there.
- **Scratch buffer** (`makeTempBitmap`, both `makeTempBitmapAsCopy` overloads).
  This is the grow-only member vector `mTempBitmapData`, filled row by row at row
  stride = width. The fill is a straight copy, or a palette lookup that yields 0
  for an index at or past `mNumEntries`.
- **In-place adjustment** (`processIntermediateBitmap`). The order is tint
  (8.8 fixed point, clamped at 255), then saturating add on bytes 0-2, then the
  red/blue swap. The swap has a 64-bit path that takes two pixels per word.

Modules: `Geometry` (vectors, rectangles), `Pixels` (byte lanes of a
pixel and the per-pixel operations), `Bitmaps` (flat bitmaps, palettes and the
regions that are staged), `BlitOptions`, `Cropping`, `Processing` (the
adjustment passes, as specification functions and as in-place array methods),
`SwapAsWritten` (the 64-bit swap loop exactly as written), and `SoftwareBlitter`
(the decisions and the `Blitter` class that owns the scratch buffer).

The model follows the code, with one exception: the red/blue swap that the
blits use is the corrected loop described under "## Findings". Two behaviours of
the code are worth noting:
- `blitColor` (lines 21-30): any mode other than OPAQUE with 0 < alpha < 1 is
  alpha-blended, not treated as opaque. OPAQUE with alpha 0 still fills.
- The tint multipliers are `uint32` (lines 287-302). The model computes
  `(b * mult) >> 8` in 32-bit bit-vector arithmetic, so a product that wraps
  wraps in the model too.

## Model

| member | source | states |
|---|---|---|
| Geometry.Intersection | Oxygen/oxygenengine/source/oxygen/drawing/software/Blitter.cpp:273 | a pixel is in the result exactly when it is in both rectangles; the size is never negative; a non-empty result lies inside both |
| Cropping.ApplyCropping | Oxygen/oxygenengine/source/oxygen/drawing/software/Blitter.cpp:237-273 | an empty sprite rectangle gives an empty box; a non-empty box lies inside the viewport; without a transform a pixel is in the box exactly when it is in the viewport and in the sprite rectangle moved by `position` |
| Cropping.InnerIndentInBounds | Oxygen/oxygenengine/source/oxygen/drawing/software/Blitter.cpp:35-41 | for a non-empty untransformed box, innerIndent >= (0,0) and innerIndent + box size <= sprite size, so every read of the sprite is inside it |
| SoftwareBlitter.BlitColor | Oxygen/oxygenengine/source/oxygen/drawing/software/Blitter.cpp:14-31 | fill iff the view is non-empty and (OPAQUE or alpha >= 1); blend iff non-empty, not OPAQUE and 0 < alpha < 1; nothing iff empty or (not OPAQUE and alpha <= 0); the call covers exactly the clipped view, inside viewport and bitmap |
| SoftwareBlitter.PlanSprite | Oxygen/oxygenengine/source/oxygen/drawing/software/Blitter.cpp:33-75 | no merge iff the cropped box is empty; the merge box is the cropped box; a zero-copy view iff no transform and nothing to adjust; the view has the box's size and lies inside the sprite |
| SoftwareBlitter.PlanIndexed | Oxygen/oxygenengine/source/oxygen/drawing/software/Blitter.cpp:77-107 | no merge iff the cropped box is empty; otherwise the source is always the scratch bitmap of the box's size |
| SoftwareBlitter.ZeroCopyViewMatchesStaging | Oxygen/oxygenengine/source/oxygen/drawing/software/Blitter.cpp:43-62 | when the zero-copy view is chosen, its region is inside the sprite, starts at innerIndent, and equals what copy-then-process would have staged |
| SoftwareBlitter.Blitter.MakeTempBitmap | Oxygen/oxygenengine/source/oxygen/drawing/software/Blitter.cpp:109-113 | the buffer holds exactly size.x * size.y pixels; storage is reallocated only when capacity is too small; kept pixels keep their values and new ones are 0 |
| SoftwareBlitter.Blitter.MakeTempBitmapAsCopy | Oxygen/oxygenengine/source/oxygen/drawing/software/Blitter.cpp:115-123 | the staged pixels are the sprite region from innerIndent, row after row at row stride = width |
| SoftwareBlitter.Blitter.CopyRow | Oxygen/oxygenengine/source/oxygen/drawing/software/Blitter.cpp:120 | one memcpy writes the w source pixels of row y at dst and nothing else |
| SoftwareBlitter.Blitter.MakeTempBitmapAsCopyIndexed | Oxygen/oxygenengine/source/oxygen/drawing/software/Blitter.cpp:125-141 | the staged pixels are the palette-resolved region from innerIndent, row after row |
| SoftwareBlitter.Blitter.ResolvePaletteRow | Oxygen/oxygenengine/source/oxygen/drawing/software/Blitter.cpp:130-138 | one row of w resolved pixels is written at dst; nothing before or after it changes |
| SoftwareBlitter.Blitter.BlitSprite | Oxygen/oxygenengine/source/oxygen/drawing/software/Blitter.cpp:33-75 | the call is the one PlanSprite decides; an untransformed staged blit leaves the processed sprite region in the buffer, swapped by the corrected loop; no merge and zero-copy leave the buffer untouched |
| SoftwareBlitter.Blitter.BlitIndexed | Oxygen/oxygenengine/source/oxygen/drawing/software/Blitter.cpp:77-107 | the call is the one PlanIndexed decides; an untransformed blit leaves the processed palette-resolved region in the buffer, swapped by the corrected loop; no merge leaves the buffer untouched |
| Bitmaps.CopyRegionAt | Oxygen/oxygenengine/source/oxygen/drawing/software/Blitter.cpp:115-123 | staged pixel y*w+x is the input pixel at (innerIndent.x+x, innerIndent.y+y), for all 0<=x<w, 0<=y<h |
| Bitmaps.CopyRegionIndexedAt | Oxygen/oxygenengine/source/oxygen/drawing/software/Blitter.cpp:125-141 | staged pixel y*w+x is palette[index] when index < mNumEntries, else 0, for the index at innerIndent + (x, y) |
| Bitmaps.LookupReadsOnlyEntries | Oxygen/oxygenengine/source/oxygen/drawing/software/Blitter.cpp:135 | entries at or past mNumEntries cannot change a lookup: they are never read |
| Pixels.TintPixelLanes | Oxygen/oxygenengine/source/oxygen/drawing/software/Blitter.cpp:294-305 | each of the four lanes becomes (b * mult[i]) >> 8 in uint32 arithmetic, or 255 when that exceeds 255 |
| Pixels.TintIdentity | Oxygen/oxygenengine/source/oxygen/drawing/software/Blitter.cpp:287-302 | multipliers (256, 256, 256, 256) leave a pixel unchanged |
| Pixels.AddPixelLanes | Oxygen/oxygenengine/source/oxygen/drawing/software/Blitter.cpp:317-327 | lanes 0-2 become min(b + add[i], 255); lane 3 (alpha) is unchanged |
| Pixels.AddIdentity | Oxygen/oxygenengine/source/oxygen/drawing/software/Blitter.cpp:311-324 | adding (0, 0, 0) leaves a pixel unchanged |
| Pixels.SwapRedBlueLanes | Oxygen/oxygenengine/source/oxygen/drawing/software/Blitter.cpp:352 | the scalar swap exchanges lanes 0 and 2 and keeps lanes 1 and 3 |
| Pixels.SwapRedBlueInvolution | Oxygen/oxygenengine/source/oxygen/drawing/software/Blitter.cpp:352 | swapping twice restores the pixel |
| Pixels.SwapRedBlue64Splits | Oxygen/oxygenengine/source/oxygen/drawing/software/Blitter.cpp:343-344 | the 64-bit masked shift-and-or gives, in each 32-bit half, exactly the scalar swap of that pixel |
| Processing.ProcessAt | Oxygen/oxygenengine/source/oxygen/drawing/software/Blitter.cpp:281-357 | the three passes act pixel by pixel: output pixel i is tint, then add, then swap applied to input pixel i |
| Processing.NoProcessingIsIdentity | Oxygen/oxygenengine/source/oxygen/drawing/software/Blitter.cpp:276-279 | when needsIntermediateProcessing is false, processing leaves the bitmap unchanged |
| Processing.NeutralAdjustmentsAreIdentity | Oxygen/oxygenengine/source/oxygen/drawing/software/Blitter.cpp:283-328 | tinting a bitmap with 1.0 and adding 0 are identities |
| Processing.SwapAllInvolution | Oxygen/oxygenengine/source/oxygen/drawing/software/Blitter.cpp:330-356 | the swap pass applied twice restores the bitmap |
| Processing.ApplyTint | Oxygen/oxygenengine/source/oxygen/drawing/software/Blitter.cpp:294-305 | the w*h bitmap becomes its tinted image; pixels after it are untouched |
| Processing.ApplyAddedColor | Oxygen/oxygenengine/source/oxygen/drawing/software/Blitter.cpp:317-327 | the w*h bitmap becomes its added-color image; pixels after it are untouched |
| Processing.SwapRedBluePair | Oxygen/oxygenengine/source/oxygen/drawing/software/Blitter.cpp:343-345 | one uint64 step swaps exactly the two pixels it covers |
| Processing.SwapRedBlueRow | Oxygen/oxygenengine/source/oxygen/drawing/software/Blitter.cpp:336-354 | with the pair guard k + 1 < numPixels, every pixel of the row is swapped once and nothing else changes, on the 64-bit and the scalar path alike |
| Processing.SwapRedBlueSingles | Oxygen/oxygenengine/source/oxygen/drawing/software/Blitter.cpp:349-354 | the single-pixel loop, from any k, swaps exactly the rest of the row and nothing else |
| Processing.SwapRedBlueChannels | Oxygen/oxygenengine/source/oxygen/drawing/software/Blitter.cpp:330-356 | the w*h bitmap becomes its swapped image and nothing past it is touched, whatever the word size |
| Processing.ProcessIntermediateBitmap | Oxygen/oxygenengine/source/oxygen/drawing/software/Blitter.cpp:281-357 | the bitmap becomes Process(old bitmap): tint, add, swap in that order, each only if configured, the swap being the corrected loop (every pixel once); pixels outside the bitmap are untouched |
| SwapAsWritten.PairLoopAsWritten | Oxygen/oxygenengine/source/oxygen/drawing/software/Blitter.cpp:341-346 | the unguarded pair loop keeps the memory size and leaves k >= numPixels, so the scalar loop after it never runs |
| SwapAsWritten.ScalarLoopAsWritten | Oxygen/oxygenengine/source/oxygen/drawing/software/Blitter.cpp:349-354 | the single-pixel loop keeps the memory size whenever it stays inside it |
| SwapAsWritten.RowAsWritten | Oxygen/oxygenengine/source/oxygen/drawing/software/Blitter.cpp:336-354 | one row as written (the pair loop, then the scalar loop) keeps the memory size whenever it stays inside it |
| SwapAsWritten.PairLoopOverrunsOddRow | Oxygen/oxygenengine/source/oxygen/drawing/software/Blitter.cpp:341-346 | on a row with an odd number of pixels still to go that ends at the end of memory, the unguarded pair loop reads past memory |
| SwapAsWritten.RowsAsWritten | Oxygen/oxygenengine/source/oxygen/drawing/software/Blitter.cpp:334-355 | the row loop as written, each row starting w pixels after the previous one, keeps the memory size whenever it stays inside it |
| SwapAsWritten.SwapChannelsAsWritten | Oxygen/oxygenengine/source/oxygen/drawing/software/Blitter.cpp:330-356 | the whole swap as written, from row 0, keeps the memory size whenever it stays inside it |
| SwapAsWritten.OddRowsOverrun | Oxygen/oxygenengine/source/oxygen/drawing/software/Blitter.cpp:334-346 | from any row on, on a bitmap of odd width that ends where memory ends, the loop as written reaches past memory |
| SwapAsWritten.OddWidthOverruns | Oxygen/oxygenengine/source/oxygen/drawing/software/Blitter.cpp:341-346 | for every odd width and every height >= 1, the loop as written accesses the pixel just past the bitmap |
| SwapAsWritten.OddWidthSwapsRowStartTwice | Oxygen/oxygenengine/source/oxygen/drawing/software/Blitter.cpp:334-346 | on a 3x2 bitmap followed by one more pixel, the first pixel of row 1 ends unswapped and the pixel past the bitmap is swapped |
| SwapAsWritten.EvenRowSwapsOnce | Oxygen/oxygenengine/source/oxygen/drawing/software/Blitter.cpp:336-354 | one row of even length, as written, swaps each of its pixels once and touches nothing else |
| SwapAsWritten.EvenRowsSwapOnce | Oxygen/oxygenengine/source/oxygen/drawing/software/Blitter.cpp:334-355 | from any row on, with even width, every remaining pixel is swapped once and nothing before the row changes |
| SwapAsWritten.EvenWidthSwapsEachPixelOnce | Oxygen/oxygenengine/source/oxygen/drawing/software/Blitter.cpp:333-355 | for every even width the loop as written swaps each pixel exactly once and stays inside the bitmap |

## Findings

| source | as written | input that shows it | evidently intended | confidence | as-written member | corrected member |
|---|---|---|---|---|---|---|
| Oxygen/oxygenengine/source/oxygen/drawing/software/Blitter.cpp:341 | the 64-bit pair loop `for (; k < numPixels; k += 2)` has no `k + 1 < numPixels` guard, so for an odd width its last step covers the pixel after the row, and the scalar loop never runs | width 3, height 2: the first pixel of row 1 is swapped twice (a pure red 0x000000ff stays red), and the last step of row 1 writes one pixel past the scratch bitmap | pair loop guarded by `k + 1 < numPixels`, and the scalar loop takes the last pixel of an odd row: every pixel swapped once, nothing outside the bitmap touched | high (not executed) | SwapAsWritten.OddWidthOverruns, SwapAsWritten.OddWidthSwapsRowStartTwice | Processing.SwapRedBlueChannels |

## Left out

- Transformed blits. `makeTempBitmapAsTransformedCopy` (lines 143-235) works in
  single-precision floats, with point and bilinear sampling through BlitterHelper.
  The float corner computation of `applyCropping` (lines 249-270) is left out too.
  A transform enters the model only as the integer bounding box that this
  computation yields (`BlitOptions.Transform`).
- SoftwareBlitter.Blitter.BlitSprite: on a transformed blit, only the resize and
  processing of the scratch buffer are modelled. The sampled pixels are not, so
  the contract says nothing about the staged contents there.
- SoftwareBlitter.Blitter.BlitIndexed: the same as BlitSprite for transformed blits.
- Float-to-integer conversion of the tint and add colors (`roundToInt`, the
  `uint32` and `uint8` casts, lines 289-292 and 313-315). The model takes the four
  `uint32` multipliers and the three added bytes as inputs.
- BlitterHelper (`fillRect`, `blendRectAlpha`, `mergeIntoOutput`, the samplers)
  is not part of this model. A call to it is a value naming the primitive, the
  rectangle and the pixel source.
- The sources of Recti, Vec2i and BitmapView are not part of this model.
  `Recti::getIntersection` is taken to be the usual clamped intersection, and
  `isEmpty` to be width <= 0 or height <= 0. The view
  `BitmapViewMutable(bitmap, viewport)` is taken to be the viewport clipped to
  the bitmap. Bitmaps are flat sequences with row stride = width, not pointers.
- 32-bit overflow of positions and sizes (`int` coordinates, `size.x * size.y`)
  is not modelled: coordinates are unbounded integers.
- Alpha is a real number, so a NaN alpha is not modelled.
- The growth policy of `std::vector` is not modelled. On reallocation the
  model's capacity becomes exactly the requested pixel count.
- `memcpy` and the `uint8*` / `uint64*` reinterpretations are per-pixel
  assignments. A pixel's byte i is its bits 8i..8i+7, as on a little-endian target.
- Processing.ProcessIntermediateBitmap: swaps red and blue with the guarded
  pair loop (`k + 1 < numPixels`), not the loop as written at line 341. On a
  64-bit target with an odd width its result is the intended one, not what the
  source does. The behaviour as written is modelled separately, in
  SwapAsWritten, and described under "## Findings".
- SoftwareBlitter.Blitter.BlitSprite: the staged pixels it promises go through
  the corrected swap, so with swapRedBlue on a 64-bit target and an odd box
  width they differ from what the source stages.
- SoftwareBlitter.Blitter.BlitIndexed: uses the same corrected swap as
  BlitSprite, with the same difference for odd box widths on a 64-bit target.
- Thread safety of the shared scratch buffer: the model is single-threaded, as
  the source is.

/**
 * Blitter::processIntermediateBitmap and needsIntermediateProcessing: the in-place
 * adjustment of a staged bitmap (row stride = width), in the fixed order tint,
 * added color, red/blue swap.
 */
module Processing {
  import opened Geometry
  import opened Pixels
  import opened Bitmaps
  import opened BlitOptions

  /** Whether any adjustment is configured, so that the sprite data must be copied first. */
  predicate NeedsIntermediateProcessing(options: Options) {
    options.tint.Some? || options.added.Some? || options.swapRedBlue
  }

  // ------------------------------------------------------ specification

  function TintAll(s: seq<Pixel>, mult: TintMult): (r: seq<Pixel>)
    ensures |r| == |s|
  {
    seq(|s|, i requires 0 <= i < |s| => TintPixel(s[i], mult))
  }

  function AddAll(s: seq<Pixel>, add: AddRgb): (r: seq<Pixel>)
    ensures |r| == |s|
  {
    seq(|s|, i requires 0 <= i < |s| => AddPixel(s[i], add))
  }

  function SwapAll(s: seq<Pixel>): (r: seq<Pixel>)
    ensures |r| == |s|
  {
    seq(|s|, i requires 0 <= i < |s| => SwapRedBlue(s[i]))
  }

  /** One pixel through the configured adjustments: tint, then add, then swap. */
  function ProcessPixel(p: Pixel, options: Options): Pixel
  {
    var tinted := if options.tint.Some? then TintPixel(p, options.tint.value) else p;
    var added := if options.added.Some? then AddPixel(tinted, options.added.value) else tinted;
    if options.swapRedBlue then SwapRedBlue(added) else added
  }

  /** The whole bitmap after processIntermediateBitmap: one pass per configured adjustment. */
  function Process(s: seq<Pixel>, options: Options): seq<Pixel>
  {
    var tinted := if options.tint.Some? then TintAll(s, options.tint.value) else s;
    var added := if options.added.Some? then AddAll(tinted, options.added.value) else tinted;
    if options.swapRedBlue then SwapAll(added) else added
  }

  /** The three passes together act pixel by pixel: pixel i depends on pixel i alone. */
  lemma ProcessAt(s: seq<Pixel>, options: Options, i: nat)
    requires i < |s|
    ensures |Process(s, options)| == |s|
    ensures Process(s, options)[i] == ProcessPixel(s[i], options)
  {
  }

  /** With nothing configured the bitmap is unchanged: the zero-copy view shows the same pixels a copy would. */
  lemma NoProcessingIsIdentity(s: seq<Pixel>, options: Options)
    requires !NeedsIntermediateProcessing(options)
    ensures Process(s, options) == s
  {
  }

  /** A tint of 1.0 and an added color of 0 leave the bitmap as it was. */
  lemma NeutralAdjustmentsAreIdentity(s: seq<Pixel>)
    ensures TintAll(s, [256, 256, 256, 256]) == s
    ensures AddAll(s, [0, 0, 0]) == s
  {
    forall i | 0 <= i < |s|
      ensures TintAll(s, [256, 256, 256, 256])[i] == s[i] && AddAll(s, [0, 0, 0])[i] == s[i]
    {
      TintIdentity(s[i]);
      AddIdentity(s[i]);
    }
  }

  /** Swapping red and blue twice restores every pixel. */
  lemma SwapAllInvolution(s: seq<Pixel>)
    ensures SwapAll(SwapAll(s)) == s
  {
    forall i | 0 <= i < |s|
      ensures SwapAll(SwapAll(s))[i] == s[i]
    {
      SwapRedBlueInvolution(s[i]);
    }
  }

  // ------------------------------------------------------- in place

  /** The tint loop (lines 294-305), row by row over the w-by-h bitmap at the front of `bitmap`. */
  method ApplyTint(bitmap: array<Pixel>, w: nat, h: nat, mult: TintMult)
    requires w * h <= bitmap.Length
    modifies bitmap
    ensures bitmap[..w * h] == TintAll(old(bitmap[..w * h]), mult)
    ensures bitmap[w * h..] == old(bitmap[w * h..])
  {
    ghost var orig := bitmap[..];
    ghost var target := TintAll(orig, mult);
    var y := 0;
    while y < h
      invariant 0 <= y <= h && y * w <= w * h
      invariant forall j :: 0 <= j < y * w ==> bitmap[j] == target[j]
      invariant forall j :: y * w <= j < bitmap.Length ==> bitmap[j] == orig[j]
    {
      var line := y * w;
      RowInRange(w, h, 0, y, w);
      var x := 0;
      while x < w
        invariant 0 <= x <= w
        invariant forall j :: 0 <= j < line + x ==> bitmap[j] == target[j]
        invariant forall j :: line + x <= j < bitmap.Length ==> bitmap[j] == orig[j]
      {
        IndexInRange(w, h, x, y);
        bitmap[line + x] := TintPixel(bitmap[line + x], mult);
        x := x + 1;
      }
      assert line + w == (y + 1) * w;
      y := y + 1;
    }
    assert y * w == w * h;
  }

  /** The added-color loop (lines 317-327). */
  method ApplyAddedColor(bitmap: array<Pixel>, w: nat, h: nat, add: AddRgb)
    requires w * h <= bitmap.Length
    modifies bitmap
    ensures bitmap[..w * h] == AddAll(old(bitmap[..w * h]), add)
    ensures bitmap[w * h..] == old(bitmap[w * h..])
  {
    ghost var orig := bitmap[..];
    ghost var target := AddAll(orig, add);
    var y := 0;
    while y < h
      invariant 0 <= y <= h && y * w <= w * h
      invariant forall j :: 0 <= j < y * w ==> bitmap[j] == target[j]
      invariant forall j :: y * w <= j < bitmap.Length ==> bitmap[j] == orig[j]
    {
      var line := y * w;
      RowInRange(w, h, 0, y, w);
      var x := 0;
      while x < w
        invariant 0 <= x <= w
        invariant forall j :: 0 <= j < line + x ==> bitmap[j] == target[j]
        invariant forall j :: line + x <= j < bitmap.Length ==> bitmap[j] == orig[j]
      {
        IndexInRange(w, h, x, y);
        bitmap[line + x] := AddPixel(bitmap[line + x], add);
        x := x + 1;
      }
      assert line + w == (y + 1) * w;
      y := y + 1;
    }
    assert y * w == w * h;
  }

  /**
   * The red/blue swap loop (lines 330-356) with the pair loop guarded by
   * k + 1 < numPixels, so that a pair never reaches past the row. Each pixel of
   * the bitmap is swapped exactly once and nothing past it is touched, on
   * either path.
   */
  method SwapRedBlueChannels(bitmap: array<Pixel>, w: nat, h: nat, wordIs64: bool)
    requires w * h <= bitmap.Length
    modifies bitmap
    ensures bitmap[..w * h] == SwapAll(old(bitmap[..w * h]))
    ensures bitmap[w * h..] == old(bitmap[w * h..])
  {
    ghost var orig := bitmap[..];
    ghost var target := SwapAll(orig);
    var y := 0;
    while y < h
      invariant 0 <= y <= h && y * w <= w * h
      invariant forall j :: 0 <= j < y * w ==> bitmap[j] == target[j]
      invariant forall j :: y * w <= j < bitmap.Length ==> bitmap[j] == orig[j]
    {
      var line := y * w;
      RowInRange(w, h, 0, y, w);
      SwapRedBlueRow(bitmap, line, w, wordIs64);
      assert line + w == (y + 1) * w;
      y := y + 1;
    }
    assert y * w == w * h;
  }

  /**
   * One row of the swap: the pixels line .. line + numPixels - 1. With
   * `wordIs64` (sizeof(void*) == 8) pairs go through one uint64 and the scalar
   * loop, which continues from the same k, takes the odd pixel left at the end;
   * otherwise the scalar loop does the whole row.
   */
  method SwapRedBlueRow(bitmap: array<Pixel>, line: nat, numPixels: nat, wordIs64: bool)
    requires line + numPixels <= bitmap.Length
    modifies bitmap
    ensures forall j :: line <= j < line + numPixels ==> bitmap[j] == SwapRedBlue(old(bitmap[j]))
    ensures forall j :: 0 <= j < bitmap.Length && !(line <= j < line + numPixels) ==> bitmap[j] == old(bitmap[j])
  {
    var k := 0;
    if wordIs64 {
      while k + 1 < numPixels
        invariant 0 <= k <= numPixels
        invariant forall j :: line <= j < line + k ==> bitmap[j] == SwapRedBlue(old(bitmap[j]))
        invariant forall j :: 0 <= j < bitmap.Length && !(line <= j < line + k) ==> bitmap[j] == old(bitmap[j])
      {
        SwapRedBluePair(bitmap, line + k);
        k := k + 2;
      }
    }
    SwapRedBlueSingles(bitmap, line, k, numPixels);
  }

  /** The single-pixel loop (lines 349-354): pixels line + from .. line + numPixels - 1, one at a time. */
  method SwapRedBlueSingles(bitmap: array<Pixel>, line: nat, from: nat, numPixels: nat)
    requires from <= numPixels && line + numPixels <= bitmap.Length
    modifies bitmap
    ensures forall j :: line + from <= j < line + numPixels ==> bitmap[j] == SwapRedBlue(old(bitmap[j]))
    ensures forall j :: 0 <= j < bitmap.Length && !(line + from <= j < line + numPixels) ==> bitmap[j] == old(bitmap[j])
  {
    var k := from;
    while k < numPixels
      invariant from <= k <= numPixels
      invariant forall j :: line + from <= j < line + k ==> bitmap[j] == SwapRedBlue(old(bitmap[j]))
      invariant forall j :: 0 <= j < bitmap.Length && !(line + from <= j < line + k) ==> bitmap[j] == old(bitmap[j])
    {
      bitmap[line + k] := SwapRedBlue(bitmap[line + k]);
      k := k + 1;
    }
  }

  /** One step of the 64-bit path: the pixels at and after `at` read, swapped and written back as one uint64. */
  method SwapRedBluePair(bitmap: array<Pixel>, at: nat)
    requires at + 1 < bitmap.Length
    modifies bitmap
    ensures bitmap[at] == SwapRedBlue(old(bitmap[at])) && bitmap[at + 1] == SwapRedBlue(old(bitmap[at + 1]))
    ensures forall j :: 0 <= j < bitmap.Length && j != at && j != at + 1 ==> bitmap[j] == old(bitmap[j])
  {
    var first, second := bitmap[at], bitmap[at + 1];
    var colors := SwapRedBlue64(Join(first, second));
    SwapRedBlue64Splits(first, second);
    bitmap[at], bitmap[at + 1] := Low(colors), High(colors);
  }

  /**
   * processIntermediateBitmap on the w-by-h bitmap at the front of `bitmap`: the
   * configured passes in order, and only pixels inside the bitmap change. The
   * swap is the guarded loop of SwapRedBlueRow; SwapAsWritten has the loop as written.
   */
  method ProcessIntermediateBitmap(bitmap: array<Pixel>, size: Vec2i, options: Options, wordIs64: bool)
    requires size.x >= 0 && size.y >= 0 && size.x * size.y <= bitmap.Length
    modifies bitmap
    ensures bitmap[..size.x * size.y] == Process(old(bitmap[..size.x * size.y]), options)
    ensures bitmap[size.x * size.y..] == old(bitmap[size.x * size.y..])
  {
    var w: nat, h: nat := size.x, size.y;
    if options.tint.Some? {
      ApplyTint(bitmap, w, h, options.tint.value);
    }
    if options.added.Some? {
      ApplyAddedColor(bitmap, w, h, options.added.value);
    }
    if options.swapRedBlue {
      SwapRedBlueChannels(bitmap, w, h, wordIs64);
    }
  }
}

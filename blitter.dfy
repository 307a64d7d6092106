/**
 * Blitter: solid-color fills, and sprite blits that either hand a direct view of
 * the sprite to the merge primitive or stage the used part of the sprite in a
 * reusable scratch buffer, adjust it in place and hand that over.
 *
 * The primitives fillRect, blendRectAlpha and mergeIntoOutput belong to
 * BlitterHelper; here a call to one of them is a value saying which one is
 * called, on which rectangle, with which pixel source.
 */
module SoftwareBlitter {
  import opened Geometry
  import opened Pixels
  import opened Bitmaps
  import opened BlitOptions
  import opened Cropping
  import opened Processing

  // ------------------------------------------------------------ solid color

  /** A color with float channels; only alpha takes part in the decisions here. */
  datatype Color = Color(r: real, g: real, b: real, a: real)

  /** OutputWrapper: the output bitmap (only its size matters here) and the viewport rectangle. */
  datatype Output = Output(width: nat, height: nat, viewport: Recti)

  /** The mutable view BitmapViewMutable(output.mBitmapView, output.mViewportRect): the viewport clipped to the bitmap. */
  function OutputView(output: Output): Recti {
    Intersection(Recti(0, 0, output.width, output.height), output.viewport)
  }

  datatype ColorCall = NoColorCall | FillRect(rect: Recti, color: Color) | BlendRectAlpha(rect: Recti, color: Color)

  /**
   * blitColor: nothing on an empty view; a plain fill for OPAQUE or alpha >= 1;
   * an alpha blend for 0 < alpha < 1 in any other mode; nothing for alpha <= 0.
   */
  function BlitColor(output: Output, color: Color, blendMode: BlendMode): (call: ColorCall)
    ensures call.FillRect? <==> !OutputView(output).IsEmpty() && (blendMode == Opaque || color.a >= 1.0)
    ensures call.BlendRectAlpha? <==> !OutputView(output).IsEmpty() && blendMode != Opaque && 0.0 < color.a < 1.0
    ensures call.NoColorCall? <==> OutputView(output).IsEmpty() || (blendMode != Opaque && color.a <= 0.0)
    ensures !call.NoColorCall? ==> call.color == color && call.rect == OutputView(output)
    ensures !call.NoColorCall? ==>
              output.viewport.Encloses(call.rect) && Recti(0, 0, output.width, output.height).Encloses(call.rect)
  {
    var view := OutputView(output);
    if view.IsEmpty() then NoColorCall
    else if blendMode == Opaque || color.a >= 1.0 then FillRect(view, color)
    else if color.a > 0.0 then BlendRectAlpha(view, color)
    else NoColorCall
  }

  // ---------------------------------------------------------------- sprites

  datatype Sprite = Sprite(bitmap: Bitmap<Pixel>, pivot: Vec2i)
  datatype IndexedSprite = IndexedSprite(bitmap: Bitmap<Byte>, pivot: Vec2i)

  /** What mergeIntoOutput reads from: a read-only view into the sprite, or the scratch bitmap. */
  datatype PixelSource = SpriteView(rect: Recti) | TempBitmap(size: Vec2i)

  datatype MergeCall = NoMerge | MergeIntoOutput(box: Recti, source: PixelSource)

  function SpriteSize<T>(bitmap: Bitmap<T>): Vec2i {
    Vec2i(bitmap.width, bitmap.height)
  }

  /** The output box of a sprite blit: applyCropping of Recti(-pivot, size) at `position`. */
  function SpriteBox<T>(viewport: Recti, bitmap: Bitmap<T>, pivot: Vec2i, position: Vec2i, options: Options): Recti {
    ApplyCropping(viewport, SpriteRect(pivot, SpriteSize(bitmap)), position, options)
  }

  /**
   * The dispatch of blitSprite: nothing for an empty box; a zero-copy view into
   * the sprite when there is no transform and nothing to adjust; the scratch
   * bitmap otherwise. A view never reaches outside the sprite.
   */
  function PlanSprite(viewport: Recti, sprite: Sprite, position: Vec2i, options: Options): (call: MergeCall)
    ensures var box := SpriteBox(viewport, sprite.bitmap, sprite.pivot, position, options);
            (call.NoMerge? <==> box.IsEmpty())
            && (call.MergeIntoOutput? ==> call.box == box && viewport.Encloses(call.box))
    ensures call.MergeIntoOutput? ==>
              (call.source.SpriteView? <==> options.transform.None? && !NeedsIntermediateProcessing(options))
    ensures call.MergeIntoOutput? && call.source.TempBitmap? ==> call.source.size == call.box.Size()
    ensures call.MergeIntoOutput? && call.source.SpriteView? ==>
              var rect := call.source.rect;
              rect.Size() == call.box.Size() && 0 <= rect.x && 0 <= rect.y
              && rect.x + rect.width <= sprite.bitmap.width && rect.y + rect.height <= sprite.bitmap.height
  {
    var box := SpriteBox(viewport, sprite.bitmap, sprite.pivot, position, options);
    if box.IsEmpty() then NoMerge
    else if options.transform.None? && !NeedsIntermediateProcessing(options) then
      InnerIndentInBounds(viewport, sprite.pivot, SpriteSize(sprite.bitmap), position, options);
      MergeIntoOutput(box, SpriteView(RectAt(InnerIndent(box, position, sprite.pivot), box.Size())))
    else MergeIntoOutput(box, TempBitmap(box.Size()))
  }

  /** The dispatch of blitIndexed: the palette must be resolved, so a non-empty box always goes through the scratch bitmap. */
  function PlanIndexed(viewport: Recti, sprite: IndexedSprite, position: Vec2i, options: Options): (call: MergeCall)
    ensures var box := SpriteBox(viewport, sprite.bitmap, sprite.pivot, position, options);
            (call.NoMerge? <==> box.IsEmpty())
            && (call.MergeIntoOutput? ==> call.box == box && viewport.Encloses(call.box))
    ensures call.MergeIntoOutput? ==> call.source == TempBitmap(call.box.Size())
  {
    var box := SpriteBox(viewport, sprite.bitmap, sprite.pivot, position, options);
    if box.IsEmpty() then NoMerge else MergeIntoOutput(box, TempBitmap(box.Size()))
  }

  /**
   * The zero-copy view shows exactly the pixels that copying and processing
   * would have staged: the shortcut of blitSprite changes nothing visible.
   */
  lemma ZeroCopyViewMatchesStaging(viewport: Recti, sprite: Sprite, position: Vec2i, options: Options)
    requires sprite.bitmap.Valid()
    requires PlanSprite(viewport, sprite, position, options).MergeIntoOutput?
    requires PlanSprite(viewport, sprite, position, options).source.SpriteView?
    ensures var call := PlanSprite(viewport, sprite, position, options);
            var rect := call.source.rect;
            RegionInside(sprite.bitmap, rect.Pos(), rect.width, rect.height)
            && rect.Pos() == InnerIndent(call.box, position, sprite.pivot)
            && CopyRegion(sprite.bitmap, rect.Pos(), rect.width, rect.height)
               == Process(CopyRegion(sprite.bitmap, rect.Pos(), rect.width, rect.height), options)
  {
    var call := PlanSprite(viewport, sprite, position, options);
    var rect := call.source.rect;
    NoProcessingIsIdentity(CopyRegion(sprite.bitmap, rect.Pos(), rect.width, rect.height), options);
  }

  // ---------------------------------------------------------------- blitter

  class Blitter {
    /** Storage of mTempBitmapData; its length is the vector's capacity. */
    var tempData: array<Pixel>
    /** mTempBitmapData.size(). */
    var tempSize: nat
    /** sizeof(void*) == 8: the swap takes two pixels per uint64. */
    const wordIs64: bool

    ghost predicate Valid()
      reads this
    {
      tempSize <= tempData.Length
    }

    /** The scratch buffer's pixels (the vector's contents). */
    ghost function Staged(): seq<Pixel>
      reads this, tempData
      requires Valid()
    {
      tempData[..tempSize]
    }

    constructor (wordIs64: bool)
      ensures Valid() && tempSize == 0 && this.wordIs64 == wordIs64
    {
      tempData := new Pixel[0];
      tempSize := 0;
      this.wordIs64 := wordIs64;
    }

    /**
     * makeTempBitmap: resize the vector to size.x * size.y pixels, a bitmap of
     * row stride size.x. Storage is reallocated only when the capacity is too
     * small and never shrinks; as with std::vector::resize the pixels kept keep
     * their values and new ones are 0.
     */
    method MakeTempBitmap(size: Vec2i)
      requires Valid() && size.x >= 0 && size.y >= 0
      modifies this, tempData
      ensures Valid() && tempSize == size.x * size.y
      ensures old(tempData.Length) >= tempSize ==> tempData == old(tempData)
      ensures old(tempData.Length) < tempSize ==> fresh(tempData) && tempData.Length == tempSize
      ensures forall i :: 0 <= i < tempSize ==> tempData[i] == if i < old(tempSize) then old(tempData[i]) else 0
    {
      var n := size.x * size.y;
      if n > tempData.Length {
        var kept := tempData[..tempSize];
        tempData := new Pixel[n](i requires 0 <= i < n => if i < |kept| then kept[i] else 0);
      } else if n > tempSize {
        forall i | tempSize <= i < n {
          tempData[i] := 0;
        }
      }
      tempSize := n;
    }

    /**
     * The direct-color makeTempBitmapAsCopy: one memcpy per row of the w pixels
     * from (innerIndent.x, innerIndent.y + y) on.
     */
    method MakeTempBitmapAsCopy(input: Bitmap<Pixel>, size: Vec2i, innerIndent: Vec2i)
      requires Valid() && input.Valid() && size.x >= 0 && size.y >= 0
      requires RegionInside(input, innerIndent, size.x, size.y)
      modifies this, tempData
      ensures Valid() && tempSize == size.x * size.y
      ensures Staged() == CopyRegion(input, innerIndent, size.x, size.y)
      ensures tempData == old(tempData) || fresh(tempData)
    {
      MakeTempBitmap(size);
      var w: nat, h: nat := size.x, size.y;
      var buffer := tempData;
      var y := 0;
      while y < h
        invariant 0 <= y <= h && y * w <= w * h
        invariant buffer == tempData && Valid() && tempSize == w * h
        invariant buffer[..y * w] == CopyRegion(input, innerIndent, w, y)
        modifies buffer
      {
        var line := y * w;
        RowInRange(w, h, 0, y, w);
        CopyRow(buffer, line, input, innerIndent, w, y);
        assert buffer[..line + w] == buffer[..line] + buffer[line..line + w];
        assert line + w == (y + 1) * w;
        y := y + 1;
      }
      assert y * w == w * h;
    }

    /** One memcpy of the direct-color copy (line 120): w pixels from (innerIndent.x, innerIndent.y + y) to dst. */
    static method CopyRow(buffer: array<Pixel>, dst: nat, input: Bitmap<Pixel>, innerIndent: Vec2i, w: nat, y: nat)
      requires input.Valid() && RegionInside(input, innerIndent, w, y + 1)
      requires dst + w <= buffer.Length
      modifies buffer
      ensures buffer[dst..dst + w] == SourceRow(input, innerIndent, w, y)
      ensures buffer[..dst] == old(buffer[..dst]) && buffer[dst + w..] == old(buffer[dst + w..])
    {
      var src := Index(input.width, innerIndent.x, innerIndent.y + y);
      RowInRange(input.width, input.height, innerIndent.x, innerIndent.y + y, w);
      forall x | 0 <= x < w {
        buffer[dst + x] := input.pixels[src + x];
      }
    }

    /**
     * The palette makeTempBitmapAsCopy: every index of the region is resolved
     * through the palette, row by row, with 0 for an index at or past mNumEntries.
     */
    method MakeTempBitmapAsCopyIndexed(input: Bitmap<Byte>, palette: Palette, size: Vec2i, innerIndent: Vec2i)
      requires Valid() && input.Valid() && palette.Valid() && size.x >= 0 && size.y >= 0
      requires RegionInside(input, innerIndent, size.x, size.y)
      modifies this, tempData
      ensures Valid() && tempSize == size.x * size.y
      ensures Staged() == CopyRegionIndexed(input, palette, innerIndent, size.x, size.y)
      ensures tempData == old(tempData) || fresh(tempData)
    {
      MakeTempBitmap(size);
      var w: nat, h: nat := size.x, size.y;
      var buffer := tempData;
      var y := 0;
      while y < h
        invariant 0 <= y <= h && y * w <= w * h
        invariant buffer == tempData && Valid() && tempSize == w * h
        invariant buffer[..y * w] == CopyRegionIndexed(input, palette, innerIndent, w, y)
        modifies buffer
      {
        var dst := y * w;
        RowInRange(w, h, 0, y, w);
        ResolvePaletteRow(buffer, dst, input, palette, innerIndent, w, y);
        assert buffer[..dst + w] == buffer[..dst] + buffer[dst..dst + w];
        assert dst + w == (y + 1) * w;
        y := y + 1;
      }
      assert y * w == w * h;
    }

    /** One row of the palette copy (lines 130-138): dst and src advance together over w pixels. */
    static method ResolvePaletteRow(buffer: array<Pixel>, dst: nat, input: Bitmap<Byte>, palette: Palette,
                                    innerIndent: Vec2i, w: nat, y: nat)
      requires input.Valid() && palette.Valid() && RegionInside(input, innerIndent, w, y + 1)
      requires dst + w <= buffer.Length
      modifies buffer
      ensures buffer[dst..dst + w] == PaletteRow(input, palette, innerIndent, w, y)
      ensures buffer[..dst] == old(buffer[..dst]) && buffer[dst + w..] == old(buffer[dst + w..])
    {
      var src := Index(input.width, innerIndent.x, innerIndent.y + y);
      RowInRange(input.width, input.height, innerIndent.x, innerIndent.y + y, w);
      ghost var row := PaletteRow(input, palette, innerIndent, w, y);
      var x := 0;
      while x < w
        invariant 0 <= x <= w
        invariant forall j :: 0 <= j < x ==> buffer[dst + j] == row[j]
        invariant buffer[..dst] == old(buffer[..dst]) && buffer[dst + w..] == old(buffer[dst + w..])
      {
        var index := input.pixels[src + x];
        assert index == input.At(innerIndent.x + x, innerIndent.y + y);
        buffer[dst + x] := if index < palette.numEntries then palette.colors[index] else 0;
        x := x + 1;
      }
    }

    /**
     * blitSprite. Untransformed: a zero-copy view when nothing needs adjusting,
     * otherwise the used part of the sprite is staged and processed. The pixels
     * the merge receives are the sprite's, from innerIndent on, through the
     * configured adjustments.
     */
    method BlitSprite(output: Output, sprite: Sprite, position: Vec2i, options: Options) returns (call: MergeCall)
      requires Valid() && sprite.bitmap.Valid()
      modifies this, tempData
      ensures Valid()
      ensures call == PlanSprite(output.viewport, sprite, position, options)
      ensures call.MergeIntoOutput? && call.source.TempBitmap? ==> tempSize == call.box.width * call.box.height
      ensures call.MergeIntoOutput? && call.source.TempBitmap? && options.transform.None? ==>
                var indent := InnerIndent(call.box, position, sprite.pivot);
                RegionInside(sprite.bitmap, indent, call.box.width, call.box.height)
                && Staged() == Process(CopyRegion(sprite.bitmap, indent, call.box.width, call.box.height), options)
      ensures call.NoMerge? || call.source.SpriteView? ==>
                tempData == old(tempData) && tempSize == old(tempSize) && tempData[..] == old(tempData[..])
    {
      var box := ApplyCropping(output.viewport, SpriteRect(sprite.pivot, SpriteSize(sprite.bitmap)), position, options);
      if box.IsEmpty() {
        return NoMerge;
      }
      var size := box.Size();
      if options.transform.None? {
        var innerIndent := InnerIndent(box, position, sprite.pivot);
        InnerIndentInBounds(output.viewport, sprite.pivot, SpriteSize(sprite.bitmap), position, options);
        if NeedsIntermediateProcessing(options) {
          MakeTempBitmapAsCopy(sprite.bitmap, size, innerIndent);
          ProcessIntermediateBitmap(tempData, size, options, wordIs64);
          call := MergeIntoOutput(box, TempBitmap(size));
        } else {
          call := MergeIntoOutput(box, SpriteView(RectAt(innerIndent, size)));
        }
      } else {
        // The transformed copy samples the sprite in float arithmetic; only the
        // scratch bitmap it fills is modelled.
        MakeTempBitmap(size);
        ProcessIntermediateBitmap(tempData, size, options, wordIs64);
        call := MergeIntoOutput(box, TempBitmap(size));
      }
    }

    /**
     * blitIndexed: like blitSprite, but the indices are always resolved through
     * the palette into the scratch bitmap before processing.
     */
    method BlitIndexed(output: Output, sprite: IndexedSprite, palette: Palette, position: Vec2i, options: Options)
      returns (call: MergeCall)
      requires Valid() && sprite.bitmap.Valid() && palette.Valid()
      modifies this, tempData
      ensures Valid()
      ensures call == PlanIndexed(output.viewport, sprite, position, options)
      ensures call.MergeIntoOutput? ==> tempSize == call.box.width * call.box.height
      ensures call.MergeIntoOutput? && options.transform.None? ==>
                var indent := InnerIndent(call.box, position, sprite.pivot);
                RegionInside(sprite.bitmap, indent, call.box.width, call.box.height)
                && Staged() == Process(CopyRegionIndexed(sprite.bitmap, palette, indent, call.box.width, call.box.height), options)
      ensures call.NoMerge? ==> tempData == old(tempData) && tempSize == old(tempSize) && tempData[..] == old(tempData[..])
    {
      var box := ApplyCropping(output.viewport, SpriteRect(sprite.pivot, SpriteSize(sprite.bitmap)), position, options);
      if box.IsEmpty() {
        return NoMerge;
      }
      var size := box.Size();
      if options.transform.None? {
        var innerIndent := InnerIndent(box, position, sprite.pivot);
        InnerIndentInBounds(output.viewport, sprite.pivot, SpriteSize(sprite.bitmap), position, options);
        MakeTempBitmapAsCopyIndexed(sprite.bitmap, palette, size, innerIndent);
      } else {
        MakeTempBitmap(size);
      }
      ProcessIntermediateBitmap(tempData, size, options, wordIs64);
      call := MergeIntoOutput(box, TempBitmap(size));
    }
  }
}

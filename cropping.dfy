/** Blitter::applyCropping: where a sprite lands in the output, cropped to the viewport. */
module Cropping {
  import opened Geometry
  import opened BlitOptions

  /** The sprite's local rectangle Recti(-pivot, size). */
  function SpriteRect(pivot: Vec2i, size: Vec2i): Recti {
    RectAt(pivot.Negated(), size)
  }

  /**
   * The sprite's footprint in output space, cropped to the viewport. Without a
   * transform the footprint is the local rectangle moved by `position`.
   */
  function ApplyCropping(viewport: Recti, spriteRect: Recti, position: Vec2i, options: Options): (r: Recti)
    ensures spriteRect.IsEmpty() ==> r.IsEmpty()
    ensures !r.IsEmpty() ==> viewport.Encloses(r)
    ensures !spriteRect.IsEmpty() && options.transform.None? ==>
              forall px, py :: r.HasPoint(px, py) <==>
                viewport.HasPoint(px, py) && spriteRect.HasPoint(px - position.x, py - position.y)
  {
    if spriteRect.IsEmpty() then EmptyRect
    else
      var uncropped :=
        match options.transform
        case None => RectAt(position.Plus(spriteRect.Pos()), spriteRect.Size())
        case Some(t) => t.screenBounds;
      Intersection(uncropped, viewport)
  }

  /** innerIndent = bbox.pos - position + pivot: the sprite pixel that lands on the box's first pixel. */
  function InnerIndent(box: Recti, position: Vec2i, pivot: Vec2i): Vec2i {
    box.Pos().Minus(position).Plus(pivot)
  }

  /**
   * Every untransformed read stays inside the sprite: the box, shifted back by
   * innerIndent, lies within the sprite's size.
   */
  lemma InnerIndentInBounds(viewport: Recti, pivot: Vec2i, size: Vec2i, position: Vec2i, options: Options)
    requires size.x >= 0 && size.y >= 0 && options.transform.None?
    requires !ApplyCropping(viewport, SpriteRect(pivot, size), position, options).IsEmpty()
    ensures var box := ApplyCropping(viewport, SpriteRect(pivot, size), position, options);
            var indent := InnerIndent(box, position, pivot);
            0 <= indent.x && 0 <= indent.y
            && indent.x + box.width <= size.x && indent.y + box.height <= size.y
  {
    var box := ApplyCropping(viewport, SpriteRect(pivot, size), position, options);
    var footprint := RectAt(position.Plus(SpriteRect(pivot, size).Pos()), size);
    assert box == Intersection(footprint, viewport);
    assert footprint.Encloses(box);
  }
}

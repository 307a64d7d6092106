/**
 * Bitmaps as flat row-major pixel sequences (row stride = width), palettes, and the
 * sub-rectangle copies that makeTempBitmapAsCopy stages into the scratch buffer.
 */
module Bitmaps {
  import opened Geometry
  import opened Pixels

  /** Flat position of pixel (x, y) in a buffer whose row stride is `w`. */
  function Index(w: nat, x: nat, y: nat): nat { y * w + x }

  lemma IndexInRange(w: nat, h: nat, x: nat, y: nat)
    requires x < w && y < h
    ensures y * w <= Index(w, x, y) < (y + 1) * w <= w * h
  {
    assert (y + 1) * w == y * w + w;
    assert (y + 1) * w <= h * w by {
      assert y + 1 <= h;
    }
  }

  /** A run of `len` pixels from (x, y) that stays inside row y stays inside the buffer. */
  lemma RowInRange(w: nat, h: nat, x: nat, y: nat, len: nat)
    requires x + len <= w && y < h
    ensures Index(w, x, y) + len <= w * h
  {
    assert Index(w, x, y) + len <= y * w + w == (y + 1) * w;
    assert (y + 1) * w <= h * w by {
      assert y + 1 <= h;
    }
  }

  datatype Bitmap<T> = Bitmap(width: nat, height: nat, pixels: seq<T>) {
    predicate Valid() { |pixels| == width * height }

    function At(x: int, y: int): T
      requires Valid() && 0 <= x < width && 0 <= y < height
    {
      IndexInRange(width, height, x, y);
      pixels[Index(width, x, y)]
    }
  }

  /** The w-by-h rectangle starting at `indent` lies inside the bitmap. */
  predicate RegionInside<T>(input: Bitmap<T>, indent: Vec2i, w: nat, h: nat)
  {
    0 <= indent.x && 0 <= indent.y && indent.x + w <= input.width && indent.y + h <= input.height
  }

  // ------------------------------------------------------ direct copy

  /** Row y of the region: the w pixels that one memcpy reads, from (indent.x, indent.y + y) on. */
  function SourceRow<T>(input: Bitmap<T>, indent: Vec2i, w: nat, y: nat): (row: seq<T>)
    requires input.Valid() && RegionInside(input, indent, w, y + 1)
    ensures |row| == w
  {
    var start := Index(input.width, indent.x, indent.y + y);
    RowInRange(input.width, input.height, indent.x, indent.y + y, w);
    input.pixels[start..start + w]
  }

  /** The first h rows of the region, laid out with row stride w. */
  function CopyRegion<T>(input: Bitmap<T>, indent: Vec2i, w: nat, h: nat): (r: seq<T>)
    requires input.Valid() && RegionInside(input, indent, w, h)
    ensures |r| == w * h
  {
    if h == 0 then []
    else
      assert w * h == w * (h - 1) + w;
      CopyRegion(input, indent, w, h - 1) + SourceRow(input, indent, w, h - 1)
  }

  /** Staged pixel (x, y) is the input pixel at innerIndent + (x, y). */
  lemma {:induction false} CopyRegionAt<T>(input: Bitmap<T>, indent: Vec2i, w: nat, h: nat, x: nat, y: nat)
    requires input.Valid() && RegionInside(input, indent, w, h)
    requires x < w && y < h
    ensures Index(w, x, y) < w * h
    ensures CopyRegion(input, indent, w, h)[Index(w, x, y)] == input.At(indent.x + x, indent.y + y)
  {
    IndexInRange(w, h, x, y);
    var r := CopyRegion(input, indent, w, h);
    assert r == CopyRegion(input, indent, w, h - 1) + SourceRow(input, indent, w, h - 1);
    if y < h - 1 {
      IndexInRange(w, h - 1, x, y);
      CopyRegionAt(input, indent, w, h - 1, x, y);
    } else {
      assert Index(w, x, y) - w * (h - 1) == x;
      IndexInRange(input.width, input.height, indent.x + x, indent.y + y);
    }
  }

  // ----------------------------------------------------- palette copy

  /** An 8-bit palette index. */
  type Byte = b: int | 0 <= b < 256

  /** A color table with mNumEntries valid entries at its front. */
  datatype Palette = Palette(colors: seq<Pixel>, numEntries: nat) {
    predicate Valid() { numEntries <= |colors| }
  }

  /** index < mNumEntries ? palette[index] : 0 */
  function Lookup(palette: Palette, index: Byte): (c: Pixel)
    requires palette.Valid()
    ensures index < palette.numEntries ==> c == palette.colors[index]
    ensures index >= palette.numEntries ==> c == 0
  {
    if index < palette.numEntries then palette.colors[index] else 0
  }

  /** The lookup never reads at or beyond mNumEntries: entries from there on cannot change it. */
  lemma LookupReadsOnlyEntries(p: Palette, q: Palette, index: Byte)
    requires p.Valid() && q.Valid() && p.numEntries == q.numEntries
    requires p.colors[..p.numEntries] == q.colors[..q.numEntries]
    ensures Lookup(p, index) == Lookup(q, index)
  {
    if index < p.numEntries {
      assert p.colors[index] == p.colors[..p.numEntries][index];
    }
  }

  /** Row y of an indexed region, each index resolved through the palette. */
  function PaletteRow(input: Bitmap<Byte>, palette: Palette, indent: Vec2i, w: nat, y: nat): (row: seq<Pixel>)
    requires input.Valid() && palette.Valid() && RegionInside(input, indent, w, y + 1)
    ensures |row| == w
  {
    seq(w, x requires 0 <= x < w => Lookup(palette, input.At(indent.x + x, indent.y + y)))
  }

  function CopyRegionIndexed(input: Bitmap<Byte>, palette: Palette, indent: Vec2i, w: nat, h: nat): (r: seq<Pixel>)
    requires input.Valid() && palette.Valid() && RegionInside(input, indent, w, h)
    ensures |r| == w * h
  {
    if h == 0 then []
    else
      assert w * h == w * (h - 1) + w;
      CopyRegionIndexed(input, palette, indent, w, h - 1) + PaletteRow(input, palette, indent, w, h - 1)
  }

  /** Staged pixel (x, y) is the palette color of the index at innerIndent + (x, y), or 0 past mNumEntries. */
  lemma {:induction false} CopyRegionIndexedAt(input: Bitmap<Byte>, palette: Palette, indent: Vec2i, w: nat, h: nat, x: nat, y: nat)
    requires input.Valid() && palette.Valid() && RegionInside(input, indent, w, h)
    requires x < w && y < h
    ensures Index(w, x, y) < w * h
    ensures var index := input.At(indent.x + x, indent.y + y);
            CopyRegionIndexed(input, palette, indent, w, h)[Index(w, x, y)]
            == if index < palette.numEntries then palette.colors[index] else 0
  {
    IndexInRange(w, h, x, y);
    if y < h - 1 {
      IndexInRange(w, h - 1, x, y);
      CopyRegionIndexedAt(input, palette, indent, w, h - 1, x, y);
    } else {
      assert Index(w, x, y) - w * (h - 1) == x;
    }
  }
}

/**
 * The red/blue swap of processIntermediateBitmap exactly as written for 64-bit
 * targets, where the pair loop `for (; k < numPixels; k += 2)` has no
 * `k + 1 < numPixels` guard. The loops run over `memory`: the bitmap's pixels,
 * optionally followed by whatever lies after it. A result of None means that a
 * read or write fell outside `memory`.
 */
module SwapAsWritten {
  import opened Pixels
  import opened BlitOptions
  import opened Processing

  datatype RowState = RowState(memory: seq<Pixel>, k: int)

  /** The pair loop as written: each step swaps the uint64 at line + k, i.e. pixels line + k and line + k + 1. */
  function PairLoopAsWritten(memory: seq<Pixel>, line: nat, k: nat, numPixels: nat): (r: Option<RowState>)
    ensures r.Some? ==> |r.value.memory| == |memory| && r.value.k >= numPixels
    decreases numPixels - k
  {
    if k >= numPixels then Some(RowState(memory, k))
    else if line + k + 1 >= |memory| then None
    else
      var swapped := memory[line + k := SwapRedBlue(memory[line + k])]
                           [line + k + 1 := SwapRedBlue(memory[line + k + 1])];
      PairLoopAsWritten(swapped, line, k + 2, numPixels)
  }

  /** The scalar tail loop, continuing from the k the pair loop left. */
  function ScalarLoopAsWritten(memory: seq<Pixel>, line: nat, k: int, numPixels: nat): (r: Option<seq<Pixel>>)
    ensures r.Some? ==> |r.value| == |memory|
    decreases numPixels - k
  {
    if k >= numPixels then Some(memory)
    else if k < 0 || line + k >= |memory| then None
    else ScalarLoopAsWritten(memory[line + k := SwapRedBlue(memory[line + k])], line, k + 1, numPixels)
  }

  function RowAsWritten(memory: seq<Pixel>, line: nat, numPixels: nat): (r: Option<seq<Pixel>>)
    ensures r.Some? ==> |r.value| == |memory|
  {
    match PairLoopAsWritten(memory, line, 0, numPixels)
    case None => None
    case Some(state) => ScalarLoopAsWritten(state.memory, line, state.k, numPixels)
  }

  /**
   * The row loop: `rows` rows of width w still to go, the next of which starts at
   * `line`; getLinePointer(y + 1) is w pixels past getLinePointer(y).
   */
  function RowsAsWritten(memory: seq<Pixel>, w: nat, line: nat, rows: nat): (r: Option<seq<Pixel>>)
    ensures r.Some? ==> |r.value| == |memory|
    decreases rows
  {
    if rows == 0 then Some(memory)
    else
      match RowAsWritten(memory, line, w)
      case None => None
      case Some(next) => RowsAsWritten(next, w, line + w, rows - 1)
  }

  /** The whole swap of a w x h bitmap as written, from its first row on. */
  function SwapChannelsAsWritten(memory: seq<Pixel>, w: nat, h: nat): (r: Option<seq<Pixel>>)
    ensures r.Some? ==> |r.value| == |memory|
  {
    RowsAsWritten(memory, w, 0, h)
  }

  /** The pixels that `rows` rows of width w cover, counted row by row. */
  function Span(rows: nat, w: nat): (n: nat)
    ensures n == rows * w
  {
    if rows == 0 then 0 else Span(rows - 1, w) + w
  }

  // --------------------------------------------------------- odd widths

  lemma {:induction false} PairLoopOverrunsOddRow(memory: seq<Pixel>, line: nat, k: nat, numPixels: nat)
    requires numPixels % 2 == 1 && k % 2 == 0 && k < numPixels
    requires line + numPixels == |memory|
    ensures PairLoopAsWritten(memory, line, k, numPixels).None?
    decreases numPixels - k
  {
    if line + k + 1 < |memory| {
      var swapped := memory[line + k := SwapRedBlue(memory[line + k])]
                           [line + k + 1 := SwapRedBlue(memory[line + k + 1])];
      PairLoopOverrunsOddRow(swapped, line, k + 2, numPixels);
    }
  }

  lemma {:induction false} OddRowsOverrun(memory: seq<Pixel>, w: nat, line: nat, rows: nat)
    requires w % 2 == 1 && rows > 0 && line + Span(rows, w) == |memory|
    ensures RowsAsWritten(memory, w, line, rows).None?
    decreases rows
  {
    if rows == 1 {
      PairLoopOverrunsOddRow(memory, line, 0, w);
    } else {
      match RowAsWritten(memory, line, w)
      case None =>
      case Some(next) => OddRowsOverrun(next, w, line + w, rows - 1);
    }
  }

  /**
   * On a bitmap of odd width the loop as written always reaches past the
   * bitmap: the last pair of the last row covers the pixel after the bitmap.
   */
  lemma OddWidthOverruns(memory: seq<Pixel>, w: nat, h: nat)
    requires w % 2 == 1 && h > 0 && |memory| == w * h
    ensures SwapChannelsAsWritten(memory, w, h).None?
  {
    OddRowsOverrun(memory, w, 0, h);
  }

  /**
   * A 3x2 bitmap followed by one more pixel in memory: the pixel starting the
   * second row is swapped twice, so it ends unswapped (visibly so when its red
   * and blue differ, as in pure red 0x000000ff), and the pixel after the bitmap
   * is swapped although it is not part of it.
   */
  lemma OddWidthSwapsRowStartTwice(memory: seq<Pixel>)
    requires |memory| == 7
    ensures SwapChannelsAsWritten(memory, 3, 2).Some?
    ensures SwapChannelsAsWritten(memory, 3, 2).value[3] == memory[3]
    ensures memory[3] == 0x0000_00ff ==> SwapChannelsAsWritten(memory, 3, 2).value[3] != SwapAll(memory[..6])[3]
    ensures SwapChannelsAsWritten(memory, 3, 2).value[6] == SwapRedBlue(memory[6])
  {
    var s := SwapRedBlue;
    var row0 := memory[0 := s(memory[0])][1 := s(memory[1])][2 := s(memory[2])][3 := s(memory[3])];
    assert PairLoopAsWritten(memory, 0, 0, 3) == PairLoopAsWritten(memory[0 := s(memory[0])][1 := s(memory[1])], 0, 2, 3);
    assert PairLoopAsWritten(memory, 0, 0, 3) == Some(RowState(row0, 4));
    assert RowAsWritten(memory, 0, 3) == Some(row0);
    var row1 := row0[3 := s(row0[3])][4 := s(row0[4])][5 := s(row0[5])][6 := s(row0[6])];
    assert PairLoopAsWritten(row0, 3, 0, 3) == PairLoopAsWritten(row0[3 := s(row0[3])][4 := s(row0[4])], 3, 2, 3);
    assert PairLoopAsWritten(row0, 3, 0, 3) == Some(RowState(row1, 4));
    assert RowAsWritten(row0, 3, 3) == Some(row1);
    assert SwapChannelsAsWritten(memory, 3, 2) == Some(row1);
    SwapRedBlueInvolution(memory[3]);
  }

  // -------------------------------------------------------- even widths

  /** `memory` with the pixels lo .. hi - 1 swapped and every other pixel as it was. */
  function SwapRange(memory: seq<Pixel>, lo: int, hi: int): (r: seq<Pixel>)
    ensures |r| == |memory|
  {
    seq(|memory|, j requires 0 <= j < |memory| => if lo <= j < hi then SwapRedBlue(memory[j]) else memory[j])
  }

  lemma {:induction false} PairLoopEvenRow(memory: seq<Pixel>, line: nat, k: nat, numPixels: nat)
    requires numPixels % 2 == 0 && k % 2 == 0 && k <= numPixels
    requires line + numPixels <= |memory|
    ensures PairLoopAsWritten(memory, line, k, numPixels)
            == Some(RowState(SwapRange(memory, line + k, line + numPixels), numPixels))
    decreases numPixels - k
  {
    if k == numPixels {
      assert SwapRange(memory, line + k, line + numPixels) == memory;
    } else {
      var swapped := memory[line + k := SwapRedBlue(memory[line + k])]
                           [line + k + 1 := SwapRedBlue(memory[line + k + 1])];
      PairLoopEvenRow(swapped, line, k + 2, numPixels);
      assert SwapRange(swapped, line + k + 2, line + numPixels) == SwapRange(memory, line + k, line + numPixels);
    }
  }

  /** Swapping lo .. mid - 1 and then mid .. hi - 1 swaps lo .. hi - 1. */
  lemma SwapRangeSplit(memory: seq<Pixel>, lo: int, mid: int, hi: int)
    requires lo <= mid <= hi
    ensures SwapRange(SwapRange(memory, lo, mid), mid, hi) == SwapRange(memory, lo, hi)
  {
  }

  /** One row of even length, as written: each of its pixels swapped once, nothing else touched. */
  lemma EvenRowSwapsOnce(memory: seq<Pixel>, line: nat, numPixels: nat)
    requires numPixels % 2 == 0 && line + numPixels <= |memory|
    ensures RowAsWritten(memory, line, numPixels) == Some(SwapRange(memory, line, line + numPixels))
  {
    PairLoopEvenRow(memory, line, 0, numPixels);
  }

  /** A row swapped, then the rows after it swapped: everything from the row's start on is swapped. */
  lemma RowThenRest(memory: seq<Pixel>, w: nat, line: nat, rows: nat, next: seq<Pixel>)
    requires rows > 0 && line + w <= |memory| && next == SwapRange(memory, line, line + w)
    requires RowAsWritten(memory, line, w) == Some(next)
    requires RowsAsWritten(next, w, line + w, rows - 1) == Some(SwapRange(next, line + w, |memory|))
    ensures RowsAsWritten(memory, w, line, rows) == Some(SwapRange(memory, line, |memory|))
  {
    SwapRangeSplit(memory, line, line + w, |memory|);
  }

  lemma {:induction false} EvenRowsSwapOnce(memory: seq<Pixel>, w: nat, line: nat, rows: nat)
    requires w % 2 == 0 && line + Span(rows, w) == |memory|
    ensures RowsAsWritten(memory, w, line, rows) == Some(SwapRange(memory, line, |memory|))
    decreases rows
  {
    if rows == 0 {
      assert SwapRange(memory, line, |memory|) == memory;
    } else {
      var next := SwapRange(memory, line, line + w);
      EvenRowSwapsOnce(memory, line, w);
      EvenRowsSwapOnce(next, w, line + w, rows - 1);
      RowThenRest(memory, w, line, rows, next);
    }
  }

  /**
   * On a bitmap of even width the loop as written does what is intended: every
   * pixel swapped exactly once, nothing outside the bitmap touched.
   */
  lemma EvenWidthSwapsEachPixelOnce(memory: seq<Pixel>, w: nat, h: nat)
    requires w % 2 == 0 && |memory| == w * h
    ensures SwapChannelsAsWritten(memory, w, h) == Some(SwapAll(memory))
  {
    EvenRowsSwapOnce(memory, w, 0, h);
    assert SwapRange(memory, 0, |memory|) == SwapAll(memory);
  }
}

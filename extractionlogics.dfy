/**
 * The decoder (src/extractionlogics.rs): every cell of a frame is read back
 * as the mean colour of its block, and the channels of the cells, row by
 * row, give the bytes until the first end-of-file byte.
 */
module ExtractionLogics {
  import opened Common
  import opened BitLogics
  import opened InjectionExtraction
  import opened Options
  import opened Arith
  import opened VideoFrames

  // ---------------------------------------------------------------- samples

  /**
   * The pixels of an image as a value, row by row; the decoder's
   * specification reads this snapshot rather than the array.
   */
  ghost function Pixels(img: array2<Color>): (pix: seq<seq<Color>>)
    reads img
    ensures |pix| == img.Length0
    ensures forall row :: 0 <= row < |pix| ==> |pix[row]| == img.Length1
  {
    seq(img.Length0, row requires 0 <= row < img.Length0 reads img =>
      seq(img.Length1, col requires 0 <= col < img.Length1 reads img => img[row, col]))
  }

  /** Every row has `width` pixels. */
  ghost predicate IsGrid(pix: seq<seq<Color>>, width: nat)
  {
    forall row :: 0 <= row < |pix| ==> |pix[row]| == width
  }

  datatype Channel = Red | Green | Blue

  function ChannelOf(c: Color, ch: Channel): u8
  {
    match ch
    case Red => c.r
    case Green => c.g
    case Blue => c.b
  }

  /** Channel `ch` of pixels `x` to `x + n - 1` of row `row`, left to right. */
  ghost function RowSamples(pix: seq<seq<Color>>, row: nat, x: nat, n: nat, ch: Channel): (samples: seq<u8>)
    requires row < |pix| && x + n <= |pix[row]|
    ensures |samples| == n
  {
    if n == 0 then [] else RowSamples(pix, row, x, n - 1, ch) + [ChannelOf(pix[row][x + n - 1], ch)]
  }

  /**
   * Channel `ch` of the first `rows` rows of the `s` x `s` block anchored at
   * column `x`, row `y`, in the order `get_pixel` collects them.
   */
  ghost function BlockSamples(pix: seq<seq<Color>>, width: nat, x: int, y: int, s: nat, rows: nat, ch: Channel): (samples: seq<u8>)
    requires IsGrid(pix, width)
    requires rows > 0 ==> 0 <= x && x + s <= width && 0 <= y && y + rows <= |pix|
    ensures |samples| == Times(rows, s)
  {
    if rows == 0 then [] else BlockSamples(pix, width, x, y, s, rows - 1, ch) + RowSamples(pix, y + rows - 1, x, s, ch)
  }

  /** One more row of the block appends that row's samples. */
  lemma BlockSamplesStep(pix: seq<seq<Color>>, width: nat, x: int, y: int, s: nat, rows: nat, ch: Channel,
                         before: seq<u8>, after: seq<u8>)
    requires IsGrid(pix, width)
    requires 0 <= x && x + s <= width && 0 <= y && y + rows < |pix|
    requires before == BlockSamples(pix, width, x, y, s, rows, ch)
    requires after == before + RowSamples(pix, y + rows, x, s, ch)
    ensures after == BlockSamples(pix, width, x, y, s, rows + 1, ch)
  {
  }

  /** Sum of channel `ch` over pixels `x` to `x + n - 1` of row `row`. */
  ghost function RowSum(pix: seq<seq<Color>>, row: nat, x: nat, n: nat, ch: Channel): nat
    requires row < |pix| && x + n <= |pix[row]|
  {
    if n == 0 then 0 else RowSum(pix, row, x, n - 1, ch) + ChannelOf(pix[row][x + n - 1], ch) as nat
  }

  /** Sum of channel `ch` over the first `rows` rows of the `s` x `s` block anchored at column `x`, row `y`. */
  ghost function BlockSum(pix: seq<seq<Color>>, width: nat, x: nat, y: nat, s: nat, rows: nat, ch: Channel): nat
    requires IsGrid(pix, width) && y + rows <= |pix| && x + s <= width
  {
    if rows == 0 then 0 else BlockSum(pix, width, x, y, s, rows - 1, ch) + RowSum(pix, y + rows - 1, x, s, ch)
  }

  lemma {:induction false} SumConcat(a: seq<u8>, b: seq<u8>)
    ensures Sum(a + b) == Sum(a) + Sum(b)
    decreases |b|
  {
    if b != [] {
      var n := |b| - 1;
      assert (a + b)[..|a + b| - 1] == a + b[..n];
      SumConcat(a, b[..n]);
    } else {
      assert a + b == a;
    }
  }

  /** The samples `get_pixel` collects add up to the block's sum. */
  lemma {:induction false} RowSamplesSum(pix: seq<seq<Color>>, row: nat, x: nat, n: nat, ch: Channel)
    requires row < |pix| && x + n <= |pix[row]|
    ensures Sum(RowSamples(pix, row, x, n, ch)) == RowSum(pix, row, x, n, ch)
  {
    if n > 0 {
      RowSamplesSum(pix, row, x, n - 1, ch);
      SumConcat(RowSamples(pix, row, x, n - 1, ch), [ChannelOf(pix[row][x + n - 1], ch)]);
      assert Sum([ChannelOf(pix[row][x + n - 1], ch)]) == ChannelOf(pix[row][x + n - 1], ch) as nat;
    }
  }

  lemma {:induction false} BlockSamplesSum(pix: seq<seq<Color>>, width: nat, x: nat, y: nat, s: nat, rows: nat, ch: Channel)
    requires IsGrid(pix, width) && y + rows <= |pix| && x + s <= width
    ensures Sum(BlockSamples(pix, width, x, y, s, rows, ch)) == BlockSum(pix, width, x, y, s, rows, ch)
  {
    if rows > 0 {
      BlockSamplesSum(pix, width, x, y, s, rows - 1, ch);
      RowSamplesSum(pix, y + rows - 1, x, s, ch);
      SumConcat(BlockSamples(pix, width, x, y, s, rows - 1, ch), RowSamples(pix, y + rows - 1, x, s, ch));
    }
  }

  /** Integer mean of non-empty samples, `sum / len` rounded down. */
  function Mean(samples: seq<u8>): u8
    requires |samples| > 0
  {
    MeanIsDiv(samples);
    Quotient(Sum(samples), |samples|) as u8
  }

  /** The mean is the floor of the sum over the count, and fits a byte. */
  lemma MeanIsDiv(samples: seq<u8>)
    requires |samples| > 0
    ensures Quotient(Sum(samples), |samples|) == Sum(samples) / |samples| <= 255
  {
    QuotientIsDiv(Sum(samples), |samples|);
    MeanWithin(samples, 0, 255);
  }

  lemma {:induction false} SumBounds(samples: seq<u8>, lo: nat, hi: nat)
    requires forall i :: 0 <= i < |samples| ==> lo <= samples[i] as nat <= hi
    ensures lo * |samples| <= Sum(samples) <= hi * |samples|
  {
    if samples != [] {
      var n := |samples| - 1;
      SumBounds(samples[..n], lo, hi);
      MulSucc(n, lo);
      MulSucc(n, hi);
      assert lo * |samples| == lo * n + lo && hi * |samples| == hi * n + hi;
    }
  }

  /** The mean lies between the smallest and the largest possible sample. */
  lemma MeanWithin(samples: seq<u8>, lo: nat, hi: nat)
    requires |samples| > 0
    requires forall i :: 0 <= i < |samples| ==> lo <= samples[i] as nat <= hi
    ensures lo <= Sum(samples) / |samples| <= hi
  {
    var n := |samples|;
    var total := Sum(samples);
    SumBounds(samples, lo, hi);
    var q := total / n;
    DivUnique(total, n, q, total % n);
    MulLe(hi + 1, q, n);
    MulLe(q + 1, lo, n);
    MulSucc(hi, n);
    MulSucc(q, n);
    assert total == q * n + total % n;
  }

  /** Samples that are all `v` average to `v`. */
  lemma UniformMean(samples: seq<u8>, v: u8)
    requires |samples| > 0
    requires forall i :: 0 <= i < |samples| ==> samples[i] == v
    ensures Mean(samples) == v
  {
    MeanIsDiv(samples);
    MeanWithin(samples, v as nat, v as nat);
  }

  // ---------------------------------------------------------------- get_pixel

  /** The block anchored at column `x`, row `y` lies inside the image. */
  predicate BlockWithin(frame: VideoFrame, x: int, y: int)
    reads frame
  {
    0 <= x && 0 <= y && x + frame.size as int <= frame.image.Length1 && y + frame.size as int <= frame.image.Length0
  }

  /**
   * Channel `ch` of the `s` x `s` block anchored at column `x`, row `y`, as
   * `get_pixel` reads it: the sum over the block's pixels divided by their
   * number, rounded down.
   */
  ghost function ChannelMean(pix: seq<seq<Color>>, width: nat, s: nat, x: nat, y: nat, ch: Channel): u8
    requires IsGrid(pix, width) && s > 0 && y + s <= |pix| && x + s <= width
  {
    BlockMeanIsMean(pix, width, s, x, y, ch);
    Quotient(BlockSum(pix, width, x, y, s, s, ch), Times(s, s)) as u8
  }

  /** The colour the block anchored at column `x`, row `y` is read as: its red, green and blue means. */
  ghost function BlockMean(pix: seq<seq<Color>>, width: nat, s: nat, x: nat, y: nat): (rgb: seq<u8>)
    requires IsGrid(pix, width) && s > 0 && y + s <= |pix| && x + s <= width
    ensures |rgb| == 3
  {
    [ChannelMean(pix, width, s, x, y, Red), ChannelMean(pix, width, s, x, y, Green), ChannelMean(pix, width, s, x, y, Blue)]
  }

  /** The block's channel mean is the mean of the samples `get_pixel` collects. */
  lemma BlockMeanIsMean(pix: seq<seq<Color>>, width: nat, s: nat, x: nat, y: nat, ch: Channel)
    requires IsGrid(pix, width) && s > 0 && y + s <= |pix| && x + s <= width
    ensures Times(s, s) > 0
    ensures Quotient(BlockSum(pix, width, x, y, s, s, ch), Times(s, s)) == Mean(BlockSamples(pix, width, x, y, s, s, ch)) as nat
  {
    TimesIsMul(s, s);
    MulPos(s, s);
    var samples := BlockSamples(pix, width, x, y, s, s, ch);
    BlockSamplesSum(pix, width, x, y, s, s, ch);
    MeanIsDiv(samples);
  }

  /**
   * The inner loop of `get_pixel`: channels of the `size` pixels of row
   * `row` from column `x` on, appended to the three lists. `ok` is false
   * when one of those pixels lies outside the image.
   */
  method ReadRow(frame: VideoFrame, s: nat, x: int, row: int, rIn: seq<u8>, gIn: seq<u8>, bIn: seq<u8>, ghost pix: seq<seq<Color>>)
    returns (ok: bool, rList: seq<u8>, gList: seq<u8>, bList: seq<u8>)
    requires frame.Valid() && pix == Pixels(frame.image) && s == frame.size as nat
    ensures ok <==> 0 <= x && 0 <= row < |pix| && x + s <= frame.image.Length1
    ensures ok ==> rList == rIn + RowSamples(pix, row, x, s, Red)
    ensures ok ==> gList == gIn + RowSamples(pix, row, x, s, Green)
    ensures ok ==> bList == bIn + RowSamples(pix, row, x, s, Blue)
  {
    rList, gList, bList := rIn, gIn, bIn;
    for j := 0 to s
      invariant j > 0 ==> 0 <= x && 0 <= row < frame.image.Length0 && x + j <= frame.image.Length1
      invariant j > 0 ==> rList == rIn + RowSamples(pix, row, x, j, Red)
      invariant j > 0 ==> gList == gIn + RowSamples(pix, row, x, j, Green)
      invariant j > 0 ==> bList == bIn + RowSamples(pix, row, x, j, Blue)
      invariant j == 0 ==> rList == rIn && gList == gIn && bList == bIn
    {
      if !(0 <= row < frame.image.Length0 && 0 <= x + j < frame.image.Length1) {
        return false, rList, gList, bList;
      }
      var bgr := frame.image[row, x + j];
      rList := rList + [bgr.r];
      gList := gList + [bgr.g];
      bList := bList + [bgr.b];
    }
    ok := true;
  }

  /**
   * `get_pixel`: the three channel means of the block anchored at column
   * `x`, row `y`. Reading a pixel outside the image panics (`unwrap` of
   * OpenCV's error).
   */
  method GetPixel(frame: VideoFrame, x: int, y: int) returns (r: Outcome<seq<u8>>)
    requires frame.Valid()
    ensures r.Returned? <==> BlockWithin(frame, x, y)
    ensures !r.Diverges?
    ensures r.Returned? ==> r.value == BlockMean(Pixels(frame.image), frame.image.Length1, frame.size as nat, x, y)
  {
    var s := frame.size as nat;
    ghost var pix := Pixels(frame.image);
    ghost var width := frame.image.Length1;
    var rList: seq<u8> := [];
    var gList: seq<u8> := [];
    var bList: seq<u8> := [];
    assert IsGrid(pix, width);
    for i := 0 to s
      invariant pix == Pixels(frame.image)
      invariant IsGrid(pix, width) && |pix| == frame.image.Length0
      invariant i > 0 ==> 0 <= x && 0 <= y && y + i <= frame.image.Length0 && x + s <= width
      invariant rList == BlockSamples(pix, width, x, y, s, i, Red)
      invariant gList == BlockSamples(pix, width, x, y, s, i, Green)
      invariant bList == BlockSamples(pix, width, x, y, s, i, Blue)
    {
      var ok, rNext, gNext, bNext := ReadRow(frame, s, x, y + i, rList, gList, bList, pix);
      if !ok {
        return Panicked("called `Result::unwrap()` on an `Err` value");
      }
      BlockSamplesStep(pix, width, x, y, s, i, Red, rList, rNext);
      BlockSamplesStep(pix, width, x, y, s, i, Green, gList, gNext);
      BlockSamplesStep(pix, width, x, y, s, i, Blue, bList, bNext);
      rList, gList, bList := rNext, gNext, bNext;
    }
    BlockMeanIsMean(pix, width, s, x, y, Red);
    BlockMeanIsMean(pix, width, s, x, y, Green);
    BlockMeanIsMean(pix, width, s, x, y, Blue);
    var rAverage := Mean(rList);
    var gAverage := Mean(gList);
    var bAverage := Mean(bList);
    return Returned([rAverage, gAverage, bAverage]);
  }

  // ---------------------------------------------------------------- frame_to_data

  /**
   * The bytes before the first end-of-file byte. The result is the longest
   * prefix of `s` free of `EOF_CHAR`: either all of `s` or followed by one.
   */
  function UntilEof(s: seq<u8>): (r: seq<u8>)
    ensures r <= s
    ensures EOF_CHAR !in r
    ensures |r| == |s| || s[|r|] == EOF_CHAR
  {
    if s == [] || s[0] == EOF_CHAR then [] else [s[0]] + UntilEof(s[1..])
  }

  /** The three properties of `UntilEof` pin its result down. */
  lemma {:induction false} UntilEofUnique(s: seq<u8>, r: seq<u8>)
    requires r <= s && EOF_CHAR !in r
    requires |r| == |s| || s[|r|] == EOF_CHAR
    ensures UntilEof(s) == r
  {
    if s != [] && s[0] != EOF_CHAR {
      assert r != [] && r[0] == s[0];
      UntilEofUnique(s[1..], r[1..]);
      assert r == [s[0]] + r[1..];
    }
  }

  /** Cells of a frame in a row, and rows of cells: the actual size divided by the cell size. */
  function FrameCellsAcross(frame: VideoFrame): nat
    reads frame
    requires frame.Valid()
  {
    frame.actualSize.width / frame.size as nat
  }

  function FrameCellsDown(frame: VideoFrame): nat
    reads frame
    requires frame.Valid()
  {
    frame.actualSize.height / frame.size as nat
  }

  /** Whole cells cover the actual size, which fits in the image. */
  lemma FrameGrid(frame: VideoFrame)
    requires frame.Valid()
    ensures frame.actualSize.width == Times(FrameCellsAcross(frame), frame.size as nat) <= frame.image.Length1
    ensures frame.actualSize.height == Times(FrameCellsDown(frame), frame.size as nat) <= frame.image.Length0
  {
    var s := frame.size as nat;
    assert frame.actualSize.width == ActualLength(frame.image.Length1, s);
    assert frame.actualSize.height == ActualLength(frame.image.Length0, s);
    ExactMultiple(frame.actualSize.width, s);
    ExactMultiple(frame.actualSize.height, s);
  }

  /**
   * The layout the cell grid is read from: a `width`-wide grid of pixels
   * with `across` x `down` cells of side `s` inside it.
   */
  ghost predicate Layout(pix: seq<seq<Color>>, width: nat, s: nat, across: nat, down: nat)
  {
    IsGrid(pix, width) && s > 0 && Times(across, s) <= width && Times(down, s) <= |pix|
  }

  /** `down` rows of `across` cells, each read as three channel values. */
  ghost predicate CellGrid(cells: seq<seq<seq<u8>>>, across: nat)
  {
    forall cy :: 0 <= cy < |cells| ==> |cells[cy]| == across && forall cx :: 0 <= cx < across ==> |cells[cy][cx]| == 3
  }

  /** Every cell of the grid lies inside the pixels. */
  lemma CellFits(pix: seq<seq<Color>>, width: nat, s: nat, across: nat, down: nat, cx: nat, cy: nat)
    requires Layout(pix, width, s, across, down) && cx < across && cy < down
    ensures Times(cx, s) + s <= width && Times(cy, s) + s <= |pix|
  {
    TimesMono(cx + 1, across, s);
    TimesMono(cy + 1, down, s);
  }

  /** The first `cols` cells of cell row `cy`, each read as the mean colour of its block. */
  ghost function CellRow(pix: seq<seq<Color>>, width: nat, s: nat, across: nat, down: nat, cy: nat, cols: nat): (row: seq<seq<u8>>)
    requires Layout(pix, width, s, across, down) && cy < down && cols <= across
    ensures |row| == cols && forall cx :: 0 <= cx < cols ==> |row[cx]| == 3
  {
    if cols == 0 then []
    else
      CellFits(pix, width, s, across, down, cols - 1, cy);
      CellRow(pix, width, s, across, down, cy, cols - 1) + [BlockMean(pix, width, s, Times(cols - 1, s), Times(cy, s))]
  }

  /** The first `rows` cell rows. */
  ghost function CellRows(pix: seq<seq<Color>>, width: nat, s: nat, across: nat, down: nat, rows: nat): (cells: seq<seq<seq<u8>>>)
    requires Layout(pix, width, s, across, down) && rows <= down
    ensures |cells| == rows && CellGrid(cells, across)
  {
    if rows == 0 then [] else CellRows(pix, width, s, across, down, rows - 1) + [CellRow(pix, width, s, across, down, rows - 1, across)]
  }

  /** Cell `cx` of a cell row is the mean colour of the block at (`cx`, `cy`). */
  lemma {:induction false} CellRowAt(pix: seq<seq<Color>>, width: nat, s: nat, across: nat, down: nat, cy: nat, cols: nat, cx: nat)
    requires Layout(pix, width, s, across, down) && cy < down && cx < cols <= across
    ensures Times(cx, s) + s <= width && Times(cy, s) + s <= |pix|
    ensures CellRow(pix, width, s, across, down, cy, cols)[cx] == BlockMean(pix, width, s, Times(cx, s), Times(cy, s))
    decreases cols
  {
    CellFits(pix, width, s, across, down, cx, cy);
    if cx < cols - 1 {
      CellRowAt(pix, width, s, across, down, cy, cols - 1, cx);
    }
  }

  /** Cell (`cx`, `cy`) of the grid is the mean colour of its block. */
  lemma {:induction false} CellRowsAt(pix: seq<seq<Color>>, width: nat, s: nat, across: nat, down: nat, rows: nat, cy: nat, cx: nat)
    requires Layout(pix, width, s, across, down) && cy < rows <= down && cx < across
    ensures Times(cx, s) + s <= width && Times(cy, s) + s <= |pix|
    ensures CellRows(pix, width, s, across, down, rows)[cy][cx] == BlockMean(pix, width, s, Times(cx, s), Times(cy, s))
    decreases rows
  {
    if cy < rows - 1 {
      CellRowsAt(pix, width, s, across, down, rows - 1, cy, cx);
    } else {
      CellRowAt(pix, width, s, across, down, cy, across, cx);
    }
  }

  /** The colours a frame's cells are read as, `cells[cy][cx]` for cell column `cx` of cell row `cy`. */
  ghost function FrameCells(frame: VideoFrame): (cells: seq<seq<seq<u8>>>)
    reads frame, frame.image
    requires frame.Valid()
    ensures |cells| == FrameCellsDown(frame) && CellGrid(cells, FrameCellsAcross(frame))
  {
    FrameGrid(frame);
    var down := FrameCellsDown(frame);
    CellRows(Pixels(frame.image), frame.image.Length1, frame.size as nat, FrameCellsAcross(frame), down, down)
  }

  /** The first `cols` cells of cell row `cy`, channel by channel. */
  ghost function RowStream(cells: seq<seq<seq<u8>>>, across: nat, cy: nat, cols: nat): (r: seq<u8>)
    requires CellGrid(cells, across) && cy < |cells| && cols <= across
    ensures |r| == 3 * cols
  {
    if cols == 0 then [] else RowStream(cells, across, cy, cols - 1) + cells[cy][cols - 1]
  }

  /** The first `rows` rows of cells, each `across` cells wide, channel by channel. */
  ghost function BandsStream(cells: seq<seq<seq<u8>>>, across: nat, rows: nat): seq<u8>
    requires CellGrid(cells, across) && rows <= |cells|
  {
    if rows == 0 then [] else BandsStream(cells, across, rows - 1) + RowStream(cells, across, rows - 1, across)
  }

  /** `rows` rows of `across` cells carry three channels per cell. */
  lemma {:induction false} BandsStreamLength(cells: seq<seq<seq<u8>>>, across: nat, rows: nat)
    requires CellGrid(cells, across) && rows <= |cells|
    ensures |BandsStream(cells, across, rows)| == 3 * across * rows
  {
    if rows > 0 {
      BandsStreamLength(cells, across, rows - 1);
      MulSucc(rows - 1, 3 * across);
    }
  }

  /** Every colour channel a frame carries, cell by cell in row-major order. */
  ghost function FrameStream(frame: VideoFrame): seq<u8>
    reads frame, frame.image
    requires frame.Valid()
  {
    var cells := FrameCells(frame);
    BandsStream(cells, FrameCellsAcross(frame), |cells|)
  }

  lemma {:induction false} RowStreamPrefix(cells: seq<seq<seq<u8>>>, across: nat, cy: nat, a: nat, b: nat)
    requires CellGrid(cells, across) && cy < |cells| && a <= b <= across
    ensures RowStream(cells, across, cy, a) <= RowStream(cells, across, cy, b)
    decreases b - a
  {
    if a < b {
      RowStreamPrefix(cells, across, cy, a, b - 1);
    }
  }

  lemma {:induction false} BandsStreamPrefix(cells: seq<seq<seq<u8>>>, across: nat, a: nat, b: nat)
    requires CellGrid(cells, across) && a <= b <= |cells|
    ensures BandsStream(cells, across, a) <= BandsStream(cells, across, b)
    decreases b - a
  {
    if a < b {
      BandsStreamPrefix(cells, across, a, b - 1);
    }
  }

  /**
   * Decoding stops at channel `k` of a block when that channel is the first
   * end-of-file byte of the block, with the channels before it kept.
   */
  lemma CellStop(stream: seq<u8>, before: seq<u8>, rgb: seq<u8>, k: nat)
    requires |rgb| == 3 && before + rgb <= stream && EOF_CHAR !in before
    requires k < 3 && rgb[k] == EOF_CHAR
    requires k >= 1 ==> rgb[0] != EOF_CHAR
    requires k >= 2 ==> rgb[1] != EOF_CHAR
    ensures k == 0 ==> UntilEof(stream) == before
    ensures k == 1 ==> UntilEof(stream) == before + [rgb[0]]
    ensures k == 2 ==> UntilEof(stream) == before + [rgb[0]] + [rgb[1]]
  {
    var r := before + rgb[..k];
    assert stream[|r|] == (before + rgb)[|before| + k] == rgb[k];
    assert EOF_CHAR !in rgb[..k];
    UntilEofUnique(stream, r);
    assert k == 1 ==> rgb[..k] == [rgb[0]];
    assert k == 2 ==> rgb[..k] == [rgb[0]] + [rgb[1]];
  }

  /**
   * An end-of-file byte at channel `k` of cell `cx` of cell row `cy`, the
   * first in that cell, ends the data of all rows with the channels before it.
   */
  lemma BlockStop(cells: seq<seq<seq<u8>>>, across: nat, cy: nat, cx: nat, before: seq<u8>, rgb: seq<u8>, k: nat)
    requires CellGrid(cells, across) && cy < |cells| && cx < across && rgb == cells[cy][cx]
    requires before == BandsStream(cells, across, cy) + RowStream(cells, across, cy, cx)
    requires EOF_CHAR !in before
    requires k < 3 && rgb[k] == EOF_CHAR
    requires k >= 1 ==> rgb[0] != EOF_CHAR
    requires k >= 2 ==> rgb[1] != EOF_CHAR
    ensures k == 0 ==> UntilEof(BandsStream(cells, across, |cells|)) == before
    ensures k == 1 ==> UntilEof(BandsStream(cells, across, |cells|)) == before + [rgb[0]]
    ensures k == 2 ==> UntilEof(BandsStream(cells, across, |cells|)) == before + [rgb[0]] + [rgb[1]]
  {
    CellInStream(cells, across, cy, cx, before, rgb);
    CellStop(BandsStream(cells, across, |cells|), before, rgb, k);
  }

  /** The channels up to and including cell (`cx`, `cy`) start the stream of all rows. */
  lemma CellInStream(cells: seq<seq<seq<u8>>>, across: nat, cy: nat, cx: nat, before: seq<u8>, rgb: seq<u8>)
    requires CellGrid(cells, across) && cy < |cells| && cx < across
    requires before == BandsStream(cells, across, cy) + RowStream(cells, across, cy, cx) && rgb == cells[cy][cx]
    ensures before + rgb <= BandsStream(cells, across, |cells|)
  {
    var bands, row := BandsStream(cells, across, cy), RowStream(cells, across, cy, cx);
    var fullRow := RowStream(cells, across, cy, across);
    RowStreamPrefix(cells, across, cy, cx + 1, across);
    BandsStreamPrefix(cells, across, cy + 1, |cells|);
    PrefixChain(bands, row, rgb, fullRow, BandsStream(cells, across, |cells|));
  }

  /** A prefix of a row, extended by a prefix of the rest, starts the whole stream. */
  lemma PrefixChain(bands: seq<u8>, row: seq<u8>, rgb: seq<u8>, fullRow: seq<u8>, all: seq<u8>)
    requires row + rgb <= fullRow && bands + fullRow <= all
    ensures bands + row + rgb <= all
  {
    assert all[..|bands + fullRow|] == bands + fullRow;
    assert (bands + fullRow)[..|bands + row + rgb|] == bands + row + rgb;
    assert all[..|bands + row + rgb|] == (bands + fullRow)[..|bands + row + rgb|];
  }

  /** Pushing the three channels of a cell one by one extends the band by that cell. */
  lemma CellRead(prefix: seq<u8>, row: seq<u8>, rgb: seq<u8>)
    requires |rgb| == 3 && EOF_CHAR !in prefix + row
    requires rgb[0] != EOF_CHAR && rgb[1] != EOF_CHAR && rgb[2] != EOF_CHAR
    ensures prefix + row + [rgb[0]] + [rgb[1]] + [rgb[2]] == prefix + (row + rgb)
    ensures EOF_CHAR !in prefix + (row + rgb)
  {
    assert prefix + (row + rgb) == (prefix + row) + rgb;
  }

  /**
   * One call of `get_pixel` in `frame_to_data`: the block of cell (`cx`,
   * `cy`) lies inside the image, so the call returns that cell's colour.
   */
  method ReadCell(frame: VideoFrame, x: nat, y: nat, ghost cx: nat, ghost cy: nat, ghost pix: seq<seq<Color>>, ghost cells: seq<seq<seq<u8>>>)
    returns (rgb: seq<u8>)
    requires frame.Valid() && pix == Pixels(frame.image)
    requires Layout(pix, frame.image.Length1, frame.size as nat, FrameCellsAcross(frame), FrameCellsDown(frame))
    requires cells == CellRows(pix, frame.image.Length1, frame.size as nat, FrameCellsAcross(frame), FrameCellsDown(frame), FrameCellsDown(frame))
    requires cy < |cells| && cx < FrameCellsAcross(frame)
    requires y == Times(cy, frame.size as nat) && x == Times(cx, frame.size as nat)
    ensures rgb == cells[cy][cx]
  {
    CellRowsAt(pix, frame.image.Length1, frame.size as nat, FrameCellsAcross(frame), FrameCellsDown(frame), FrameCellsDown(frame), cy, cx);
    var pixel := GetPixel(frame, x, y);
    rgb := pixel.value;
  }

  /**
   * The inner loop of `frame_to_data` over the band of rows starting at
   * `y = Times(cy, size)`, after `prefix` was read from the bands above. It
   * either stops at an end-of-file byte, with the whole frame's result, or
   * reads the entire band.
   */
  method ReadBand(frame: VideoFrame, y: nat, ghost cy: nat, prefix: seq<u8>, ghost pix: seq<seq<Color>>, ghost cells: seq<seq<seq<u8>>>)
    returns (data: seq<u8>, stop: bool)
    requires frame.Valid() && pix == Pixels(frame.image)
    requires Layout(pix, frame.image.Length1, frame.size as nat, FrameCellsAcross(frame), FrameCellsDown(frame))
    requires cells == CellRows(pix, frame.image.Length1, frame.size as nat, FrameCellsAcross(frame), FrameCellsDown(frame), FrameCellsDown(frame))
    requires cy < |cells| && y == Times(cy, frame.size as nat)
    requires prefix == BandsStream(cells, FrameCellsAcross(frame), cy) && EOF_CHAR !in prefix
    ensures stop ==> data == UntilEof(BandsStream(cells, FrameCellsAcross(frame), |cells|))
    ensures !stop ==> data == prefix + RowStream(cells, FrameCellsAcross(frame), cy, FrameCellsAcross(frame))
    ensures !stop ==> EOF_CHAR !in data
  {
    var width := frame.actualSize.width;
    var s := frame.size as nat;
    ghost var across := FrameCellsAcross(frame);
    FrameGrid(frame);
    data := prefix;
    var x := 0;
    ghost var cx := 0;
    while x < width
      invariant x == Times(cx, s) && cx <= across
      invariant data == prefix + RowStream(cells, across, cy, cx)
      invariant EOF_CHAR !in data
      invariant pix == Pixels(frame.image)
      decreases width - x
    {
      if cx == across {
        assert false;
      }
      var rgb := ReadCell(frame, x, y, cx, cy, pix, cells);
      ghost var before := data;
      if rgb[0] == EOF_CHAR {
        BlockStop(cells, across, cy, cx, before, rgb, 0);
        return data, true;
      }
      data := data + [rgb[0]];
      if rgb[1] == EOF_CHAR {
        BlockStop(cells, across, cy, cx, before, rgb, 1);
        return data, true;
      }
      data := data + [rgb[1]];
      if rgb[2] == EOF_CHAR {
        BlockStop(cells, across, cy, cx, before, rgb, 2);
        return data, true;
      }
      data := data + [rgb[2]];
      CellRead(prefix, RowStream(cells, across, cy, cx), rgb);
      x := x + s;
      cx := cx + 1;
    }
    TimesEnd(cx, across, s);
    stop := false;
  }

  /**
   * `frame_to_data`: reads the blocks of the actual size row by row and
   * collects their red, green and blue means, stopping before the first
   * end-of-file byte.
   */
  method FrameToData(frame: VideoFrame) returns (data: seq<u8>)
    requires frame.Valid()
    ensures data == UntilEof(FrameStream(frame))
    ensures EOF_CHAR !in data
    ensures |data| <= 3 * FrameCellsAcross(frame) * FrameCellsDown(frame)
  {
    var height := frame.actualSize.height;
    var s := frame.size as nat;
    FrameGrid(frame);
    ghost var pix := Pixels(frame.image);
    ghost var across, down := FrameCellsAcross(frame), FrameCellsDown(frame);
    ghost var cells := FrameCells(frame);
    ghost var stream := FrameStream(frame);
    BandsStreamLength(cells, across, |cells|);
    data := [];
    var y := 0;
    ghost var cy := 0;
    while y < height
      invariant y == Times(cy, s) && cy <= |cells|
      invariant data == BandsStream(cells, across, cy)
      invariant EOF_CHAR !in data
      invariant pix == Pixels(frame.image)
      decreases height - y
    {
      if cy == |cells| {
        assert false;
      }
      var stop;
      data, stop := ReadBand(frame, y, cy, data, pix, cells);
      if stop {
        return;
      }
      y := y + s;
      cy := cy + 1;
    }
    TimesEnd(cy, |cells|, s);
    UntilEofUnique(stream, data);
  }

  // ---------------------------------------------------------------- frames_to_data

  /** Every frame's fields agree with its image. */
  ghost predicate AllValid(frames: seq<VideoFrame>)
    reads frames
  {
    forall p :: 0 <= p < |frames| ==> frames[p].Valid()
  }

  /** The first `n` frames decoded one after the other, each up to its own end-of-file byte. */
  ghost function FramesData(frames: seq<VideoFrame>, n: nat): seq<u8>
    reads frames, set fr | fr in frames :: fr.image
    requires AllValid(frames) && n <= |frames|
  {
    if n == 0 then [] else FramesData(frames, n - 1) + UntilEof(FrameStream(frames[n - 1]))
  }

  /**
   * `frames_to_data`: the bytes of every frame, in order. The options are
   * not consulted.
   */
  method FramesToData(opts: ExtractOptions, frames: seq<VideoFrame>) returns (data: seq<u8>)
    requires AllValid(frames)
    ensures data == FramesData(frames, |frames|)
    ensures EOF_CHAR !in data
  {
    data := [];
    for p := 0 to |frames|
      invariant data == FramesData(frames, p)
      invariant EOF_CHAR !in data
    {
      data := AppendFrame(frames, p, data);
    }
  }

  /** One round of `frames_to_data`: frame `p`'s bytes appended to those of the frames before it. */
  method AppendFrame(frames: seq<VideoFrame>, p: nat, before: seq<u8>) returns (after: seq<u8>)
    requires AllValid(frames) && p < |frames|
    requires before == FramesData(frames, p) && EOF_CHAR !in before
    ensures after == FramesData(frames, p + 1)
    ensures EOF_CHAR !in after
  {
    var frameData := FrameToData(frames[p]);
    after := before + frameData;
  }
}

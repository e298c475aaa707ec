/**
 * The encoder (src/injectionlogics.rs): bytes become frames. A frame is cut
 * into cells of `size` x `size` pixels, visited row of cells by row of
 * cells; each cell is painted with one colour.
 */
module InjectionLogics {
  import opened Common
  import opened BitMath
  import opened BitLogics
  import opened InjectionExtraction
  import opened Options
  import opened Arith
  import opened VideoFrames

  // ---------------------------------------------------------------- geometry

  /** Cells in one row of cells. */
  function CellsAcross(opts: InjectOptions): nat
    requires opts.size > 0
  {
    opts.width / opts.size
  }

  /** Rows of cells. */
  function CellsDown(opts: InjectOptions): nat
    requires opts.size > 0
  {
    opts.height / opts.size
  }

  /** Cells in one frame. */
  function CellCount(opts: InjectOptions): nat
    requires opts.size > 0
  {
    CellsAcross(opts) * CellsDown(opts)
  }

  /**
   * Some cell is visited, and the width or the height is not a multiple of
   * the cell size: the last block of a row or of a column crosses the edge.
   */
  predicate SomeBlockCrosses(opts: InjectOptions)
  {
    opts.size > 0 && opts.width > 0 && opts.height > 0 &&
    (opts.width % opts.size != 0 || opts.height % opts.size != 0)
  }

  /** The geometry the encoders accept: at least one cell, and every block inside the frame. */
  predicate Encodable(opts: InjectOptions)
  {
    opts.size > 0 && opts.width > 0 && opts.height > 0 &&
    opts.width % opts.size == 0 && opts.height % opts.size == 0
  }

  /** Column `x`, row `y` is where the two `step_by(size)` loops place a block. */
  predicate IsAnchor(opts: InjectOptions, x: nat, y: nat)
  {
    opts.size > 0 && x % opts.size == 0 && y % opts.size == 0 && x < opts.width && y < opts.height
  }

  /** When some block crosses, there is a visited anchor whose block leaves the frame: `write` panics there. */
  lemma CrossingAnchor(opts: InjectOptions)
    requires SomeBlockCrosses(opts)
    ensures exists x: nat, y: nat ::
      IsAnchor(opts, x, y) && (x + opts.size > opts.width || y + opts.size > opts.height)
  {
    var s := opts.size as nat;
    if opts.width % s != 0 {
      var x := ActualLength(opts.width, s);
      assert x != opts.width;
      assert IsAnchor(opts, x, 0) && x + opts.size > opts.width;
    } else {
      var y := ActualLength(opts.height, s);
      assert y != opts.height;
      assert IsAnchor(opts, 0, y) && y + opts.size > opts.height;
    }
  }

  /** An encodable frame has at least one cell. */
  lemma CellCountPositive(opts: InjectOptions)
    requires Encodable(opts)
    ensures CellsAcross(opts) >= 1 && CellsDown(opts) >= 1 && CellCount(opts) >= 1
    ensures opts.width == CellsAcross(opts) * opts.size && opts.height == CellsDown(opts) * opts.size
  {
    var s := opts.size as int;
    assert opts.width == (opts.width / s) * s;
    assert opts.height == (opts.height / s) * s;
    MulPos(CellsAcross(opts), CellsDown(opts));
  }

  /** The geometry of an encodable frame, stated with `Times` for the loops. */
  lemma Grid(opts: InjectOptions)
    requires Encodable(opts)
    ensures CellsAcross(opts) >= 1 && CellsDown(opts) >= 1 && CellCount(opts) >= 1
    ensures opts.width as nat == Times(CellsAcross(opts), opts.size as nat)
    ensures opts.height as nat == Times(CellsDown(opts), opts.size as nat)
    ensures CellCount(opts) == Times(CellsDown(opts), CellsAcross(opts))
  {
    CellCountPositive(opts);
    TimesIsMul(CellsAcross(opts), opts.size as nat);
    TimesIsMul(CellsDown(opts), opts.size as nat);
    TimesIsMul(CellsDown(opts), CellsAcross(opts));
  }

  // ---------------------------------------------------------------- painting

  /** What the cells of a frame show; cells are numbered row-major from `firstCell`. */
  datatype Paint =
    | StartingRed
    | RgbPayload(data: seq<u8>, firstCell: nat)
    | BwPayload(data: seq<u8>, firstCell: nat)

  /** Byte `i` of the data, or the end-of-file byte past its end. */
  function ByteOrEof(data: seq<u8>, i: nat): (b: u8)
    ensures i < |data| ==> b == data[i]
    ensures i >= |data| ==> b == EOF_CHAR
  {
    if i < |data| then data[i] else EOF_CHAR
  }

  /** RGB: cell `g` carries bytes `3g`, `3g + 1` and `3g + 2` in its red, green and blue. */
  function RgbCellColor(data: seq<u8>, g: nat): Color
  {
    Color(ByteOrEof(data, 3 * g), ByteOrEof(data, 3 * g + 1), ByteOrEof(data, 3 * g + 2))
  }

  /**
   * Black and white: cell `g` carries bit `7 - g % 7` of byte `g / 7`, white
   * for 1 and black for 0. Bits 7 down to 1 of each byte are sent; bit 0 is not.
   */
  function BwBitPosition(g: nat): (n: u8)
    ensures 1 <= n <= 7
  {
    (7 - g % 7) as u8
  }

  function BwCellColor(data: seq<u8>, g: nat): Color
  {
    GetRgbForBit(GetBitAt(ByteOrEof(data, g / 7), BwBitPosition(g)).value)
  }

  /** The colour of cell `k` of a frame. */
  function CellColor(paint: Paint, k: nat): Color
  {
    match paint
    case StartingRed => Color(255, 0, 0)
    case RgbPayload(data, first) => RgbCellColor(data, first + k)
    case BwPayload(data, first) => BwCellColor(data, first + k)
  }

  /** The cell holding pixel (`row`, `col`) when a row of cells has `across` cells. */
  function CellOfPixel(row: nat, col: nat, s: nat, across: nat): nat
    requires s > 0
  {
    (row / s) * across + col / s
  }

  /**
   * Every pixel above row `rowsDone`, and every pixel of the band of rows
   * starting at `rowsDone` left of column `colsDone`, shows its cell's colour.
   */
  ghost predicate Painted(img: array2<Color>, s: nat, across: nat, rowsDone: nat, colsDone: nat, paint: Paint)
    reads img
    requires s > 0
  {
    forall row, col {:trigger CellOfPixel(row, col, s, across)} ::
      && 0 <= row < img.Length0 && 0 <= col < img.Length1
      && (row < rowsDone || (row < rowsDone + s && col < colsDone))
      ==> img[row, col] == CellColor(paint, CellOfPixel(row, col, s, across))
  }

  /** A frame of the requested geometry whose every pixel shows its cell's colour. */
  ghost predicate ShowsCells(frame: VideoFrame, opts: InjectOptions, paint: Paint)
    reads frame, frame.image
  {
    && frame.Valid()
    && frame.size == opts.size
    && frame.image.Length0 == opts.height as int
    && frame.image.Length1 == opts.width as int
    && Painted(frame.image, opts.size as nat, CellsAcross(opts), opts.height as nat, 0, paint)
  }

  /** Pixels of the block anchored at cell (`cx`, `cy`) all belong to that cell. */
  lemma BlockCell(s: nat, across: nat, cx: nat, cy: nat, row: nat, col: nat)
    requires s > 0
    requires cy * s <= row < cy * s + s && cx * s <= col < cx * s + s
    ensures CellOfPixel(row, col, s, across) == cy * across + cx
  {
    DivInBlock(row, s, cy);
    DivInBlock(col, s, cx);
  }

  /** Once a band of rows is painted across the whole width, the next band starts. */
  lemma BandDone(img: array2<Color>, s: nat, across: nat, y: nat, x: nat, paint: Paint)
    requires s > 0 && x >= img.Length1
    requires Painted(img, s, across, y, x, paint)
    ensures Painted(img, s, across, y + s, 0, paint)
  {
  }

  /**
   * One step of the two loops: `frame.write(r, g, b, x, y)` at the anchor of
   * cell (`cx`, `cy`), with the colour that cell must show, extends the
   * painted region by that block.
   */
  method WriteCell(frame: VideoFrame, opts: InjectOptions, r: u8, g: u8, b: u8, x: nat, y: nat,
                   ghost paint: Paint, ghost cx: nat, ghost cy: nat)
    requires frame.Valid() && frame.size == opts.size && Encodable(opts)
    requires frame.image.Length0 == opts.height as int && frame.image.Length1 == opts.width as int
    requires x == Times(cx, opts.size as nat) && y == Times(cy, opts.size as nat)
    requires x < opts.width as int && y < opts.height as int
    requires Color(r, g, b) == CellColor(paint, Times(cy, CellsAcross(opts)) + cx)
    requires Painted(frame.image, opts.size as nat, CellsAcross(opts), y, x, paint)
    modifies frame.image
    ensures cx < CellsAcross(opts) && cy < CellsDown(opts)
    ensures Painted(frame.image, opts.size as nat, CellsAcross(opts), y, x + opts.size, paint)
  {
    var s := opts.size as nat;
    var across := CellsAcross(opts);
    CellCountPositive(opts);
    TimesIsMul(cx, s);
    TimesIsMul(cy, s);
    TimesIsMul(cy, across);
    AnchorFits(cx, across, s);
    AnchorFits(cy, CellsDown(opts), s);
    var res := frame.Write(r, g, b, x as u16, y as u16);
    forall row, col | y <= row < y + s && x <= col < x + s
      ensures CellOfPixel(row, col, s, across) == cy * across + cx
    {
      BlockCell(s, across, cx, cy, row, col);
    }
  }

  // ---------------------------------------------------------------- encoders

  /**
   * `create_starting_frame`: a frame entirely red, which announces that the
   * data frames follow. A cell size of 0 panics (`width % 0` in
   * `VideoFrame::new`); so does a block crossing the edge (see `CrossingAnchor`).
   */
  method CreateStartingFrame(opts: InjectOptions) returns (r: Outcome<VideoFrame>)
    ensures r.Panicked? <==> opts.size == 0 || SomeBlockCrosses(opts)
    ensures !r.Diverges?
    ensures r.Returned? ==> fresh(r.value) && fresh(r.value.image) && ShowsCells(r.value, opts, StartingRed)
  {
    if opts.size == 0 {
      return Panicked("attempt to calculate the remainder with a divisor of zero");
    }
    if SomeBlockCrosses(opts) {
      return Panicked("index is out of bounds");
    }
    var s := opts.size as nat;
    var across := CellsAcross(opts);
    var frame := new VideoFrame(opts.size, opts.width, opts.height);
    var y := 0;
    ghost var cy := 0;
    while y < opts.height as nat
      invariant y == Times(cy, s)
      invariant Painted(frame.image, s, across, y, 0, StartingRed)
      modifies frame.image
      decreases opts.height as nat - y
    {
      var x := 0;
      ghost var cx := 0;
      while x < opts.width as nat
        invariant x == Times(cx, s)
        invariant Painted(frame.image, s, across, y, x, StartingRed)
        modifies frame.image
        decreases opts.width as nat - x
      {
        WriteCell(frame, opts, 255, 0, 0, x, y, StartingRed, cx, cy);
        x := x + s;
        cx := cx + 1;
      }
      BandDone(frame.image, s, across, y, x, StartingRed);
      y := y + s;
      cy := cy + 1;
    }
    return Returned(frame);
  }

  /** Frames needed for `len` bytes in RGB: three bytes per cell, rounded up to whole frames. */
  function RgbFrameCount(opts: InjectOptions, len: nat): nat
    requires Encodable(opts)
  {
    CellCountPositive(opts);
    CeilDiv(len, 3 * CellCount(opts))
  }

  /** Frames needed for `len` bytes in black and white: seven cells per byte, rounded up. */
  function BwFrameCount(opts: InjectOptions, len: nat): nat
    requires Encodable(opts)
  {
    CellCountPositive(opts);
    CeilDiv(7 * len, CellCount(opts))
  }

  /** The RGB loop stops after the first frame that reaches the end of the data. */
  lemma RgbLoopCount(opts: InjectOptions, len: nat, n: nat, done: nat)
    requires Encodable(opts) && done == Times(n, CellCount(opts))
    requires 3 * done >= len && (n == 0 || 3 * (done - CellCount(opts)) < len)
    ensures n == RgbFrameCount(opts, len)
  {
    var cells := CellCount(opts);
    CellCountPositive(opts);
    TimesIsMul(n, cells);
    if n > 0 {
      MulSucc(n - 1, cells);
    }
    CeilDivUnique(len, 3 * cells, n);
  }

  /** The BW loop stops after the first frame whose byte counter passes the end of the data. */
  lemma BwLoopCount(opts: InjectOptions, len: nat, n: nat, done: nat, dataIndex: nat, bitIndex: u8)
    requires Encodable(opts) && done == Times(n, CellCount(opts))
    requires BwCounters(dataIndex, bitIndex, done) && dataIndex >= len
    requires n == 0 || done - CellCount(opts) < 7 * len
    ensures n == BwFrameCount(opts, len)
  {
    var cells := CellCount(opts);
    CellCountPositive(opts);
    TimesIsMul(n, cells);
    if n > 0 {
      MulSucc(n - 1, cells);
    }
    CeilDivUnique(7 * len, cells, n);
  }

  /**
   * The frames `data_to_frames_method_rgb` produces: one frame per `3 * C`
   * bytes (C cells per frame) rounded up, frame `p` showing cells `p * C`
   * onward, three bytes per cell and the end-of-file byte after the data.
   */
  ghost predicate RgbEncoded(opts: InjectOptions, data: seq<u8>, frames: seq<VideoFrame>)
    reads frames, set fr | fr in frames :: fr.image
    requires Encodable(opts)
  {
    && |frames| == RgbFrameCount(opts, |data|)
    && RgbFramesShow(opts, data, frames)
  }

  /** Frame `p` of `frames` shows the RGB cells from global cell `p * CellCount(opts)` on. */
  ghost predicate RgbFramesShow(opts: InjectOptions, data: seq<u8>, frames: seq<VideoFrame>)
    reads frames, set fr | fr in frames :: fr.image
    requires Encodable(opts)
  {
    CellCountPositive(opts);
    forall p :: 0 <= p < |frames| ==> ShowsCells(frames[p], opts, RgbPayload(data, p * CellCount(opts)))
  }

  /** Appending the frame that continues the cell stream keeps `RgbFramesShow`. */
  lemma RgbFramesShowAppend(opts: InjectOptions, data: seq<u8>, frames: seq<VideoFrame>, frame: VideoFrame)
    requires Encodable(opts) && RgbFramesShow(opts, data, frames)
    requires ShowsCells(frame, opts, RgbPayload(data, |frames| * CellCount(opts)))
    ensures RgbFramesShow(opts, data, frames + [frame])
  {
  }

  /**
   * One round of the loop of `data_to_frames_method_rgb`: a new frame whose
   * cells, row by row, take the next three bytes each (or the end-of-file
   * byte past the data). `dataIndex` advances by three per cell.
   */
  method FillRgbFrame(opts: InjectOptions, data: seq<u8>, dataIndex: nat, ghost first: nat)
    returns (frame: VideoFrame, nextIndex: nat)
    requires Encodable(opts)
    requires dataIndex == 3 * first
    ensures fresh(frame) && fresh(frame.image)
    ensures ShowsCells(frame, opts, RgbPayload(data, first))
    ensures nextIndex == dataIndex + 3 * CellCount(opts)
  {
    var s := opts.size as nat;
    var across := CellsAcross(opts);
    var down := CellsDown(opts);
    ghost var paint := RgbPayload(data, first);
    Grid(opts);
    nextIndex := dataIndex;
    frame := new VideoFrame(opts.size, opts.width, opts.height);
    var y := 0;
    ghost var cy := 0;
    while y < opts.height as nat
      invariant y == Times(cy, s) && cy <= down
      invariant nextIndex == 3 * (first + Times(cy, across))
      invariant Painted(frame.image, s, across, y, 0, paint)
      modifies frame.image
      decreases opts.height as nat - y
    {
      nextIndex := FillRgbBand(frame, opts, data, nextIndex, y, first, cy);
      y := y + s;
      cy := cy + 1;
    }
    TimesEnd(cy, down, s);
  }

  /**
   * The inner loop of `data_to_frames_method_rgb`: the cells of grid row
   * `cy`, left to right, three bytes each.
   */
  method FillRgbBand(frame: VideoFrame, opts: InjectOptions, data: seq<u8>, dataIndex: nat, y: nat,
                     ghost first: nat, ghost cy: nat)
    returns (nextIndex: nat)
    requires frame.Valid() && frame.size == opts.size && Encodable(opts)
    requires frame.image.Length0 == opts.height as int && frame.image.Length1 == opts.width as int
    requires y == Times(cy, opts.size as nat) && y < opts.height as int
    requires dataIndex == 3 * (first + Times(cy, CellsAcross(opts)))
    requires Painted(frame.image, opts.size as nat, CellsAcross(opts), y, 0, RgbPayload(data, first))
    modifies frame.image
    ensures nextIndex == dataIndex + 3 * CellsAcross(opts)
    ensures Painted(frame.image, opts.size as nat, CellsAcross(opts), y + opts.size as nat, 0, RgbPayload(data, first))
  {
    var s := opts.size as nat;
    var across := CellsAcross(opts);
    ghost var paint := RgbPayload(data, first);
    Grid(opts);
    nextIndex := dataIndex;
    var x := 0;
    ghost var cx := 0;
    while x < opts.width as nat
      invariant x == Times(cx, s) && cx <= across
      invariant nextIndex == dataIndex + 3 * cx
      invariant Painted(frame.image, s, across, y, x, paint)
      modifies frame.image
      decreases opts.width as nat - x
    {
      var red := if nextIndex < |data| then data[nextIndex] else EOF_CHAR;
      var green := if nextIndex + 1 < |data| then data[nextIndex + 1] else EOF_CHAR;
      var blue := if nextIndex + 2 < |data| then data[nextIndex + 2] else EOF_CHAR;
      WriteCell(frame, opts, red, green, blue, x, y, paint, cx, cy);
      nextIndex := nextIndex + 3;
      x := x + s;
      cx := cx + 1;
    }
    TimesEnd(cx, across, s);
    BandDone(frame.image, s, across, y, x, paint);
  }

  /**
   * `data_to_frames_method_rgb`. No data gives no frame. Otherwise a cell
   * size of 0 or a crossing block panics, and a frame without cells never
   * advances through the data: the loop does not end.
   */
  method DataToFramesRgb(opts: InjectOptions, data: seq<u8>) returns (r: Outcome<seq<VideoFrame>>)
    ensures |data| == 0 ==> r == Returned([])
    ensures |data| > 0 ==> (r.Panicked? <==> opts.size == 0 || SomeBlockCrosses(opts))
    ensures |data| > 0 ==> (r.Diverges? <==> opts.size > 0 && (opts.width == 0 || opts.height == 0))
    ensures |data| > 0 && r.Returned? ==> Encodable(opts) && RgbEncoded(opts, data, r.value)
    ensures r.Returned? ==> forall fr :: fr in r.value ==> fresh(fr) && fresh(fr.image)
  {
    if |data| == 0 {
      return Returned([]);
    }
    if opts.size == 0 {
      return Panicked("attempt to calculate the remainder with a divisor of zero");
    }
    if opts.width == 0 || opts.height == 0 {
      return Diverges;
    }
    if SomeBlockCrosses(opts) {
      return Panicked("index is out of bounds");
    }
    ghost var cells := CellCount(opts);
    CellCountPositive(opts);
    var frames: seq<VideoFrame> := [];
    var dataIndex := 0;
    ghost var done := 0;
    while dataIndex < |data|
      invariant done == Times(|frames|, cells) && dataIndex == 3 * done
      invariant |frames| == 0 || 3 * (done - cells) < |data|
      invariant forall p :: 0 <= p < |frames| ==> fresh(frames[p]) && fresh(frames[p].image)
      invariant RgbFramesShow(opts, data, frames)
      decreases |data| - dataIndex
    {
      var frame;
      frame, dataIndex := FillRgbFrame(opts, data, dataIndex, done);
      TimesIsMul(|frames|, cells);
      RgbFramesShowAppend(opts, data, frames, frame);
      frames := frames + [frame];
      done := done + cells;
    }
    RgbLoopCount(opts, |data|, |frames|, done);
    return Returned(frames);
  }

  /**
   * The frames `data_to_frames_method_bw` produces for data of length L: one
   * cell per bit sent, seven bits per byte, so `7 * L` cells rounded up to
   * whole frames; frame `p` shows cells `p * C` onward, the end-of-file byte
   * after the data.
   */
  ghost predicate BwEncoded(opts: InjectOptions, data: seq<u8>, frames: seq<VideoFrame>)
    reads frames, set fr | fr in frames :: fr.image
    requires Encodable(opts)
  {
    && |frames| == BwFrameCount(opts, |data|)
    && BwFramesShow(opts, data, frames)
  }

  /** Frame `p` of `frames` shows the BW cells from global cell `p * CellCount(opts)` on. */
  ghost predicate BwFramesShow(opts: InjectOptions, data: seq<u8>, frames: seq<VideoFrame>)
    reads frames, set fr | fr in frames :: fr.image
    requires Encodable(opts)
  {
    CellCountPositive(opts);
    forall p :: 0 <= p < |frames| ==> ShowsCells(frames[p], opts, BwPayload(data, p * CellCount(opts)))
  }

  /** Appending the frame that continues the cell stream keeps `BwFramesShow`. */
  lemma BwFramesShowAppend(opts: InjectOptions, data: seq<u8>, frames: seq<VideoFrame>, frame: VideoFrame)
    requires Encodable(opts) && BwFramesShow(opts, data, frames)
    requires ShowsCells(frame, opts, BwPayload(data, |frames| * CellCount(opts)))
    ensures BwFramesShow(opts, data, frames + [frame])
  {
  }

  /**
   * The counters of the BW encoder stand at global cell `g`: seven cells
   * per byte, bits 7 down to 1.
   */
  predicate BwCounters(dataIndex: nat, bitIndex: u8, g: nat)
  {
    1 <= bitIndex <= 7 && g == 7 * dataIndex + 7 - bitIndex as int
  }

  /** After bit 1 of a byte comes bit 7 of the next byte. */
  lemma BwCounterStep(dataIndex: nat, bitIndex: u8, g: nat)
    requires BwCounters(dataIndex, bitIndex, g)
    ensures bitIndex > 1 ==> BwCounters(dataIndex, bitIndex - 1, g + 1)
    ensures bitIndex <= 1 ==> BwCounters(dataIndex + 1, 7, g + 1)
  {
  }

  /** The bit the counters select is the one cell `g` must show. */
  lemma BwCountersColor(data: seq<u8>, dataIndex: nat, bitIndex: u8, g: nat)
    requires BwCounters(dataIndex, bitIndex, g)
    ensures g / 7 == dataIndex && BwBitPosition(g) == bitIndex
    ensures GetRgbForBit(GetBitAt(ByteOrEof(data, dataIndex), bitIndex).value) == BwCellColor(data, g)
  {
    DivUnique(g, 7, dataIndex, 7 - bitIndex as int);
  }

  /**
   * The body of the inner loop of `data_to_frames_method_bw`: the block of
   * cell (`cx`, `cy`) shows the bit the counters select, of the current byte
   * or of the end-of-file byte past the data.
   */
  method PaintBwCell(frame: VideoFrame, opts: InjectOptions, data: seq<u8>, dataIndex: nat, bitIndex: u8,
                     x: nat, y: nat, ghost first: nat, ghost cx: nat, ghost cy: nat)
    requires frame.Valid() && frame.size == opts.size && Encodable(opts)
    requires frame.image.Length0 == opts.height as int && frame.image.Length1 == opts.width as int
    requires x == Times(cx, opts.size as nat) && y == Times(cy, opts.size as nat)
    requires x < opts.width as int && y < opts.height as int
    requires BwCounters(dataIndex, bitIndex, first + Times(cy, CellsAcross(opts)) + cx)
    requires Painted(frame.image, opts.size as nat, CellsAcross(opts), y, x, BwPayload(data, first))
    modifies frame.image
    ensures Painted(frame.image, opts.size as nat, CellsAcross(opts), y, x + opts.size, BwPayload(data, first))
  {
    BwCountersColor(data, dataIndex, bitIndex, first + Times(cy, CellsAcross(opts)) + cx);
    var bit;
    if dataIndex < |data| {
      bit := GetBitAt(data[dataIndex], bitIndex);
    } else {
      bit := GetBitAt(EOF_CHAR, bitIndex);
    }
    assert bit == GetBitAt(ByteOrEof(data, dataIndex), bitIndex);
    var color := GetRgbForBit(bit.value);
    WriteCell(frame, opts, color.r, color.g, color.b, x, y, BwPayload(data, first), cx, cy);
  }

  /**
   * One round of the loop of `data_to_frames_method_bw`: a new frame whose
   * cells, row by row, show one bit each. The counters name the byte and the
   * bit of global cell `g`: byte `g / 7`, bit `7 - g % 7`; after bit 1 comes
   * bit 7 of the next byte.
   */
  method FillBwFrame(opts: InjectOptions, data: seq<u8>, dataIndex: nat, bitIndex: u8, ghost first: nat)
    returns (frame: VideoFrame, nextData: nat, nextBit: u8)
    requires Encodable(opts)
    requires BwCounters(dataIndex, bitIndex, first)
    ensures fresh(frame) && fresh(frame.image)
    ensures ShowsCells(frame, opts, BwPayload(data, first))
    ensures BwCounters(nextData, nextBit, first + CellCount(opts))
  {
    var s := opts.size as nat;
    var across := CellsAcross(opts);
    var down := CellsDown(opts);
    ghost var paint := BwPayload(data, first);
    Grid(opts);
    nextData, nextBit := dataIndex, bitIndex;
    frame := new VideoFrame(opts.size, opts.width, opts.height);
    var y := 0;
    ghost var cy := 0;
    while y < opts.height as nat
      invariant y == Times(cy, s) && cy <= down
      invariant BwCounters(nextData, nextBit, first + Times(cy, across))
      invariant Painted(frame.image, s, across, y, 0, paint)
      modifies frame.image
      decreases opts.height as nat - y
    {
      nextData, nextBit := FillBwBand(frame, opts, data, nextData, nextBit, y, first, cy);
      y := y + s;
      cy := cy + 1;
    }
    TimesEnd(cy, down, s);
  }

  /**
   * The inner loop of `data_to_frames_method_bw`: the cells of grid row
   * `cy`, left to right, one bit each, the counters moving after every cell.
   */
  method FillBwBand(frame: VideoFrame, opts: InjectOptions, data: seq<u8>, dataIndex: nat, bitIndex: u8,
                    y: nat, ghost first: nat, ghost cy: nat)
    returns (nextData: nat, nextBit: u8)
    requires frame.Valid() && frame.size == opts.size && Encodable(opts)
    requires frame.image.Length0 == opts.height as int && frame.image.Length1 == opts.width as int
    requires y == Times(cy, opts.size as nat) && y < opts.height as int
    requires BwCounters(dataIndex, bitIndex, first + Times(cy, CellsAcross(opts)))
    requires Painted(frame.image, opts.size as nat, CellsAcross(opts), y, 0, BwPayload(data, first))
    modifies frame.image
    ensures BwCounters(nextData, nextBit, first + Times(cy, CellsAcross(opts)) + CellsAcross(opts))
    ensures Painted(frame.image, opts.size as nat, CellsAcross(opts), y + opts.size as nat, 0, BwPayload(data, first))
  {
    var s := opts.size as nat;
    var across := CellsAcross(opts);
    ghost var paint := BwPayload(data, first);
    Grid(opts);
    nextData, nextBit := dataIndex, bitIndex;
    ghost var rowStart := first + Times(cy, across);
    ghost var g := rowStart;
    var x := 0;
    ghost var cx := 0;
    while x < opts.width as nat
      invariant x == Times(cx, s) && cx <= across
      invariant g == rowStart + cx
      invariant BwCounters(nextData, nextBit, g)
      invariant Painted(frame.image, s, across, y, x, paint)
      modifies frame.image
      decreases opts.width as nat - x
    {
      assert x + s == Times(cx + 1, s);
      PaintBwCell(frame, opts, data, nextData, nextBit, x, y, first, cx, cy);
      BwCounterStep(nextData, nextBit, g);
      if nextBit > 1 {
        nextBit := nextBit - 1;
      } else {
        nextData := nextData + 1;
        nextBit := 7;
      }
      g := g + 1;
      x := x + s;
      cx := cx + 1;
    }
    TimesEnd(cx, across, s);
    BandDone(frame.image, s, across, y, x, paint);
  }

  /** `width * height / size`, computed in 32 bits where it cannot overflow (at most 65535 * 65535). */
  function PixelsPerSize(opts: InjectOptions): nat
    requires opts.size > 0
  {
    (opts.width as nat * opts.height as nat) / opts.size as nat
  }

  /** A frame without pixels has no room for a bit. */
  lemma EmptyFrameHasNoRoom(opts: InjectOptions)
    requires opts.size > 0
    ensures opts.width == 0 || opts.height == 0 ==> PixelsPerSize(opts) == 0
  {
  }

  /**
   * The loop of `data_to_frames_method_bw` once the geometry is accepted:
   * frames are added while the byte counter has not passed the data.
   */
  method BwFrameLoop(opts: InjectOptions, data: seq<u8>) returns (frames: seq<VideoFrame>)
    requires Encodable(opts)
    ensures BwEncoded(opts, data, frames)
    ensures forall fr :: fr in frames ==> fresh(fr) && fresh(fr.image)
  {
    ghost var cells := CellCount(opts);
    CellCountPositive(opts);
    frames := [];
    var dataIndex: nat := 0;
    var bitIndex: u8 := 7;
    ghost var done := 0;
    while dataIndex < |data|
      invariant done == Times(|frames|, cells)
      invariant BwCounters(dataIndex, bitIndex, done)
      invariant |frames| == 0 || done - cells < 7 * |data|
      invariant forall p :: 0 <= p < |frames| ==> fresh(frames[p]) && fresh(frames[p].image)
      invariant BwFramesShow(opts, data, frames)
      decreases 7 * |data| - done
    {
      var frame;
      frame, dataIndex, bitIndex := FillBwFrame(opts, data, dataIndex, bitIndex, done);
      TimesIsMul(|frames|, cells);
      BwFramesShowAppend(opts, data, frames, frame);
      frames := frames + [frame];
      done := done + cells;
    }
    BwLoopCount(opts, |data|, |frames|, done, dataIndex, bitIndex);
  }

  /**
   * `data_to_frames_method_bw`. A cell size of 0 panics (division by zero),
   * and so does a frame of fewer than 8 pixels per cell size
   * (`width * height / size < 8`), even with no data. Past those checks no
   * data gives no frame, and a crossing block panics.
   */
  method DataToFramesBw(opts: InjectOptions, data: seq<u8>) returns (r: Outcome<seq<VideoFrame>>)
    ensures r.Panicked? <==>
      || opts.size == 0
      || PixelsPerSize(opts) < 8
      || (|data| > 0 && SomeBlockCrosses(opts))
    ensures !r.Diverges?
    ensures r.Returned? && |data| == 0 ==> r.value == []
    ensures r.Returned? && |data| > 0 ==> Encodable(opts) && BwEncoded(opts, data, r.value)
    ensures r.Returned? ==> forall fr :: fr in r.value ==> fresh(fr) && fresh(fr.image)
  {
    if opts.size == 0 {
      return Panicked("attempt to divide by zero");
    }
    var totalSize := PixelsPerSize(opts);
    if totalSize < 8 {
      return Panicked("The frame size must be at least big enough to accept a single character");
    }
    if |data| == 0 {
      return Returned([]);
    }
    if SomeBlockCrosses(opts) {
      return Panicked("index is out of bounds");
    }
    EmptyFrameHasNoRoom(opts);
    var frames := BwFrameLoop(opts, data);
    return Returned(frames);
  }

  /**
   * `data_to_frames`: the RGB encoder when the algorithm is RGB, the black
   * and white encoder otherwise.
   */
  method DataToFrames(opts: InjectOptions, data: seq<u8>) returns (r: Outcome<seq<VideoFrame>>)
    ensures opts.algo == RGB ==>
      && (|data| == 0 ==> r == Returned([]))
      && (|data| > 0 ==> (r.Panicked? <==> opts.size == 0 || SomeBlockCrosses(opts)))
      && (|data| > 0 ==> (r.Diverges? <==> opts.size > 0 && (opts.width == 0 || opts.height == 0)))
      && (|data| > 0 && r.Returned? ==> Encodable(opts) && RgbEncoded(opts, data, r.value))
    ensures opts.algo == BW ==>
      && (r.Panicked? <==> opts.size == 0 || PixelsPerSize(opts) < 8 || (|data| > 0 && SomeBlockCrosses(opts)))
      && !r.Diverges?
      && (r.Returned? && |data| == 0 ==> r.value == [])
      && (r.Returned? && |data| > 0 ==> Encodable(opts) && BwEncoded(opts, data, r.value))
    ensures r.Returned? ==> forall fr :: fr in r.value ==> fresh(fr) && fresh(fr.image)
  {
    if opts.algo == RGB {
      r := DataToFramesRgb(opts, data);
    } else {
      r := DataToFramesBw(opts, data);
    }
  }

  // ---------------------------------------------------------------- properties

  /** Options of the given geometry, as the encoder tests build them. */
  function Geometry(width: u16, height: u16, size: u8, algo: AlgoFrame): InjectOptions
  {
    InjectOptions("", "", 30, width, height, size, algo)
  }

  /** Fourteen bytes fit one 10 x 10 frame but need two 2 x 2 frames (three bytes per cell). */
  lemma RgbFrameCountExamples()
    ensures RgbFrameCount(Geometry(10, 10, 1, RGB), 14) == 1
    ensures RgbFrameCount(Geometry(2, 2, 1, RGB), 14) == 2
    ensures RgbFrameCount(Geometry(2, 2, 1, RGB), 0) == 0
  {
    CellCountPositive(Geometry(10, 10, 1, RGB));
    CellCountPositive(Geometry(2, 2, 1, RGB));
  }

  /** "This" in a 2 x 2 frame: the first cell holds "Thi", the second "s" and two end-of-file bytes. */
  lemma RgbPaddingExample()
    ensures RgbCellColor([54, 68, 69, 73], 0) == Color(54, 68, 69)
    ensures RgbCellColor([54, 68, 69, 73], 1) == Color(73, EOF_CHAR, EOF_CHAR)
  {
  }

  /** Fourteen bytes at seven cells each take 98 cells: seven 4 x 4 frames of 16 cells. */
  lemma BwFrameCountExample()
    ensures BwFrameCount(Geometry(4, 4, 1, BW), 14) == 7
  {
    CellCountPositive(Geometry(4, 4, 1, BW));
  }

  /** Byte 54 (0011 0110) starts black, black, white, white. */
  lemma BwPaddingExample()
    ensures BwCellColor([54, 68, 69, 73], 0) == Color(0, 0, 0)
    ensures BwCellColor([54, 68, 69, 73], 1) == Color(0, 0, 0)
    ensures BwCellColor([54, 68, 69, 73], 2) == Color(255, 255, 255)
    ensures BwCellColor([54, 68, 69, 73], 3) == Color(255, 255, 255)
  {
    BitsOf54();
  }

  /**
   * Bit 0 is never sent: two payloads whose bytes agree on bits 1 to 7
   * give every cell the same colour.
   */
  lemma BwIgnoresBitZero(data: seq<u8>, other: seq<u8>, g: nat)
    requires |data| == |other|
    requires forall i, k :: 0 <= i < |data| && 1 <= k < 8 ==> BitOf(data[i], k) == BitOf(other[i], k)
    ensures BwCellColor(data, g) == BwCellColor(other, g)
  {
    var n := BwBitPosition(g);
    if g / 7 < |data| {
      assert BitOf(data[g / 7], n) == BitOf(other[g / 7], n);
    }
  }

  /** So the payloads [54] and [55], one bit apart, are sent identically. */
  lemma BwBitZeroExample(g: nat)
    ensures BwCellColor([54], g) == BwCellColor([55], g)
  {
    forall i, k | 0 <= i < 1 && 1 <= k < 8
      ensures BitOf([54][i], k) == BitOf([55][i], k)
    {
      assert BitOf(54, k) == BitOf(27, k - 1) == BitOf(55, k);
    }
    BwIgnoresBitZero([54], [55], g);
  }
}

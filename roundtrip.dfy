/**
 * The codec end to end: the frames `data_to_frames_method_rgb` paints
 * (src/injectionlogics.rs) are read back by `frames_to_data`
 * (src/extractionlogics.rs). Each frame gives the bytes of its part of the
 * data up to the first end-of-file byte, so data without that byte comes
 * back whole, and data with it comes back cut short.
 */
module RoundTrip {
  import opened Common
  import opened InjectionExtraction
  import opened Options
  import opened Arith
  import opened VideoFrames
  import opened InjectionLogics
  import opened ExtractionLogics

  // ---------------------------------------------------------------- one block

  lemma {:induction false} RowSamplesUniform(pix: seq<seq<Color>>, row: nat, x: nat, n: nat, ch: Channel, c: Color)
    requires row < |pix| && x + n <= |pix[row]|
    requires forall col :: x <= col < x + n ==> pix[row][col] == c
    ensures forall i :: 0 <= i < n ==> RowSamples(pix, row, x, n, ch)[i] == ChannelOf(c, ch)
  {
    if n > 0 {
      RowSamplesUniform(pix, row, x, n - 1, ch, c);
    }
  }

  lemma {:induction false} BlockSamplesUniform(pix: seq<seq<Color>>, width: nat, x: nat, y: nat, s: nat, rows: nat, ch: Channel, c: Color)
    requires IsGrid(pix, width) && y + rows <= |pix| && x + s <= width
    requires forall row, col :: y <= row < y + rows && x <= col < x + s ==> pix[row][col] == c
    ensures forall i :: 0 <= i < Times(rows, s) ==> BlockSamples(pix, width, x, y, s, rows, ch)[i] == ChannelOf(c, ch)
  {
    if rows > 0 {
      BlockSamplesUniform(pix, width, x, y, s, rows - 1, ch, c);
      RowSamplesUniform(pix, y + rows - 1, x, s, ch, c);
    }
  }

  /** A block painted in one colour is read back as exactly that colour. */
  lemma UniformBlockMean(pix: seq<seq<Color>>, width: nat, s: nat, x: nat, y: nat, c: Color)
    requires IsGrid(pix, width) && s > 0 && y + s <= |pix| && x + s <= width
    requires forall row, col :: y <= row < y + s && x <= col < x + s ==> pix[row][col] == c
    ensures BlockMean(pix, width, s, x, y) == [c.r, c.g, c.b]
  {
    forall ch: Channel
      ensures ChannelMean(pix, width, s, x, y, ch) == ChannelOf(c, ch)
    {
      BlockMeanIsMean(pix, width, s, x, y, ch);
      BlockSamplesUniform(pix, width, x, y, s, s, ch, c);
      UniformMean(BlockSamples(pix, width, x, y, s, s, ch), ChannelOf(c, ch));
    }
  }

  // ---------------------------------------------------------------- one frame

  /** A frame of encodable geometry has the requested cell grid, with no partial cells. */
  lemma FrameMatchesOptions(frame: VideoFrame, opts: InjectOptions, paint: Paint)
    requires Encodable(opts) && ShowsCells(frame, opts, paint)
    ensures FrameCellsAcross(frame) == CellsAcross(opts) && FrameCellsDown(frame) == CellsDown(opts)
  {
    assert frame.actualSize.width == opts.width as int;
    assert frame.actualSize.height == opts.height as int;
  }

  /** The row-major number of cell (`cx`, `cy`) in a row of `across` cells. */
  function CellIndex(across: nat, cy: nat, cx: nat): nat
  {
    Times(cy, across) + cx
  }

  /** Cell (`cx`, `cy`) of a painted frame is read back as the colour it was painted. */
  lemma FrameCellColor(frame: VideoFrame, opts: InjectOptions, paint: Paint, cy: nat, cx: nat)
    requires Encodable(opts) && ShowsCells(frame, opts, paint)
    requires cy < CellsDown(opts) && cx < CellsAcross(opts)
    ensures FrameCells(frame)[cy][cx] == [CellColor(paint, CellIndex(CellsAcross(opts), cy, cx)).r,
                                          CellColor(paint, CellIndex(CellsAcross(opts), cy, cx)).g,
                                          CellColor(paint, CellIndex(CellsAcross(opts), cy, cx)).b]
  {
    FrameMatchesOptions(frame, opts, paint);
    FrameGrid(frame);
    var s := frame.size as nat;
    var across, down := CellsAcross(opts), CellsDown(opts);
    var pix := Pixels(frame.image);
    var width := frame.image.Length1;
    CellRowsAt(pix, width, s, across, down, down, cy, cx);
    var x, y := Times(cx, s), Times(cy, s);
    TimesIsMul(cx, s);
    TimesIsMul(cy, s);
    TimesIsMul(cy, across);
    var c := CellColor(paint, CellIndex(across, cy, cx));
    forall row, col | y <= row < y + s && x <= col < x + s
      ensures pix[row][col] == c
    {
      BlockCell(s, across, cx, cy, row, col);
    }
    UniformBlockMean(pix, width, s, x, y, c);
  }

  /** Channels `a` to `a + n - 1` of the data followed by end-of-file bytes. */
  function Channels(data: seq<u8>, a: nat, n: nat): (r: seq<u8>)
    ensures |r| == n && forall i :: 0 <= i < n ==> r[i] == ByteOrEof(data, a + i)
  {
    seq<u8>(n, i requires 0 <= i < n => ByteOrEof(data, a + i))
  }

  lemma ChannelsSplit(data: seq<u8>, a: nat, n: nat, b: nat, m: nat, total: nat)
    requires b == a + n && total == n + m
    ensures Channels(data, a, n) + Channels(data, b, m) == Channels(data, a, total)
  {
  }

  /** The red, green and blue of RGB cell `g` are channels `3g` to `3g + 2`. */
  lemma RgbCellChannels(data: seq<u8>, g: nat)
    ensures [RgbCellColor(data, g).r, RgbCellColor(data, g).g, RgbCellColor(data, g).b] == Channels(data, 3 * g, 3)
  {
  }

  /** Every cell `cells[cy][cx]` holds the three channels of cell `first + cy * across + cx`. */
  ghost predicate CarriesCells(cells: seq<seq<seq<u8>>>, across: nat, data: seq<u8>, first: nat)
  {
    CellGrid(cells, across) &&
    forall cy, cx :: 0 <= cy < |cells| && 0 <= cx < across ==>
      cells[cy][cx] == Channels(data, 3 * (first + CellIndex(across, cy, cx)), 3)
  }

  lemma {:induction false} RowStreamChannels(cells: seq<seq<seq<u8>>>, across: nat, data: seq<u8>, first: nat, cy: nat, cols: nat)
    requires CellGrid(cells, across) && CarriesCells(cells, across, data, first)
    requires cy < |cells| && cols <= across
    ensures RowStream(cells, across, cy, cols) == Channels(data, 3 * (first + Times(cy, across)), 3 * cols)
  {
    if cols > 0 {
      RowStreamChannels(cells, across, data, first, cy, cols - 1);
      ChannelsSplit(data, 3 * (first + Times(cy, across)), 3 * (cols - 1), 3 * (first + CellIndex(across, cy, cols - 1)), 3, 3 * cols);
    }
  }

  lemma {:induction false} BandsStreamChannels(cells: seq<seq<seq<u8>>>, across: nat, data: seq<u8>, first: nat, rows: nat)
    requires CellGrid(cells, across) && rows <= |cells|
    requires forall cy :: 0 <= cy < rows ==>
      RowStream(cells, across, cy, across) == Channels(data, 3 * (first + Times(cy, across)), 3 * across)
    ensures BandsStream(cells, across, rows) == Channels(data, 3 * first, 3 * Times(rows, across))
  {
    if rows > 0 {
      BandsStreamChannels(cells, across, data, first, rows - 1);
      ChannelsSplit(data, 3 * first, 3 * Times(rows - 1, across), 3 * (first + Times(rows - 1, across)), 3 * across, 3 * Times(rows, across));
    }
  }

  /**
   * A frame painted with the RGB payload from cell `first` on is read as the
   * data from channel `3 * first` on, three channels per cell, padded with
   * end-of-file bytes.
   */
  lemma RgbFrameStream(frame: VideoFrame, opts: InjectOptions, data: seq<u8>, first: nat)
    requires Encodable(opts) && ShowsCells(frame, opts, RgbPayload(data, first))
    ensures FrameStream(frame) == Channels(data, 3 * first, 3 * CellCount(opts))
  {
    FrameMatchesOptions(frame, opts, RgbPayload(data, first));
    var across := CellsAcross(opts);
    var cells := FrameCells(frame);
    forall cy, cx | 0 <= cy < |cells| && 0 <= cx < across
      ensures cells[cy][cx] == Channels(data, 3 * (first + CellIndex(across, cy, cx)), 3)
    {
      FrameCellColor(frame, opts, RgbPayload(data, first), cy, cx);
      RgbCellChannels(data, first + CellIndex(across, cy, cx));
    }
    forall cy | 0 <= cy < |cells|
      ensures RowStream(cells, across, cy, across) == Channels(data, 3 * (first + Times(cy, across)), 3 * across)
    {
      RowStreamChannels(cells, across, data, first, cy, across);
    }
    BandsStreamChannels(cells, across, data, first, |cells|);
    Grid(opts);
  }

  // ---------------------------------------------------------------- all frames

  /** The first `k` bytes of the data, or all of it when it is shorter. */
  function Prefix(data: seq<u8>, k: nat): (r: seq<u8>)
    ensures r <= data && |r| == if k <= |data| then k else |data|
  {
    if k <= |data| then data[..k] else data
  }

  /**
   * Without end-of-file bytes in the data, decoding the `m` channels from
   * channel `a` on continues the data's first `a` bytes to its first `a + m`.
   */
  lemma PrefixExtend(data: seq<u8>, a: nat, m: nat)
    requires EOF_CHAR !in data
    ensures Prefix(data, a) + UntilEof(Channels(data, a, m)) == Prefix(data, a + m)
  {
    var s := Channels(data, a, m);
    if a >= |data| {
      assert m > 0 ==> s[0] == EOF_CHAR;
      UntilEofUnique(s, []);
    } else if a + m <= |data| {
      var r := data[a..a + m];
      assert r == s;
      assert data[..a] + r == data[..a + m];
      UntilEofUnique(s, r);
    } else {
      var r := data[a..];
      assert r <= s;
      assert s[|r|] == EOF_CHAR;
      assert data[..a] + r == data;
      UntilEofUnique(s, r);
    }
  }

  /**
   * What decoding `n` frames of `cells` cells each gives: for each frame, its
   * `3 * cells` channels of the data up to their first end-of-file byte.
   */
  ghost function DecodedFrames(data: seq<u8>, cells: nat, n: nat): seq<u8>
  {
    if n == 0 then [] else DecodedFrames(data, cells, n - 1) + UntilEof(Channels(data, 3 * ((n - 1) * cells), 3 * cells))
  }

  /** Frames from `data_to_frames_method_rgb` decode frame by frame, whatever bytes the data holds. */
  lemma {:induction false} RgbFramesDecode(opts: InjectOptions, data: seq<u8>, frames: seq<VideoFrame>, n: nat)
    requires Encodable(opts) && RgbEncoded(opts, data, frames) && n <= |frames|
    ensures AllValid(frames)
    ensures FramesData(frames, n) == DecodedFrames(data, CellCount(opts), n)
  {
    CellCountPositive(opts);
    if n > 0 {
      RgbFramesDecode(opts, data, frames, n - 1);
      EncodedFrame(opts, data, frames, n - 1);
      RgbFrameStream(frames[n - 1], opts, data, FirstCell(opts, n - 1));
    }
  }

  /** The number of the first cell frame `p` shows. */
  function FirstCell(opts: InjectOptions, p: nat): nat
    requires opts.size > 0
  {
    p * CellCount(opts)
  }

  /** Frame `p` of the encoding shows the cells from `p * C` on. */
  lemma EncodedFrame(opts: InjectOptions, data: seq<u8>, frames: seq<VideoFrame>, p: nat)
    requires Encodable(opts) && RgbEncoded(opts, data, frames) && p < |frames|
    ensures ShowsCells(frames[p], opts, RgbPayload(data, FirstCell(opts, p)))
  {
  }

  /** Without end-of-file bytes, `n` frames decode to the data's first `3 * n * cells` bytes. */
  lemma {:induction false} DecodedWithoutEof(data: seq<u8>, cells: nat, n: nat)
    requires EOF_CHAR !in data
    ensures DecodedFrames(data, cells, n) == Prefix(data, 3 * (n * cells))
  {
    if n > 0 {
      DecodedWithoutEof(data, cells, n - 1);
      MulSucc(n - 1, cells);
      PrefixExtend(data, 3 * ((n - 1) * cells), 3 * cells);
    }
  }

  lemma CeilDivCovers(a: nat, b: nat)
    requires b > 0
    ensures b * CeilDiv(a, b) >= a
  {
    var q := (a + b - 1) / b;
    assert a + b - 1 == q * b + (a + b - 1) % b;
  }

  /**
   * The round trip: the frames `data_to_frames_method_rgb` paints for data
   * holding no end-of-file byte are read back by `frames_to_data` as exactly
   * that data.
   */
  lemma RgbRoundTrip(opts: InjectOptions, data: seq<u8>, frames: seq<VideoFrame>)
    requires Encodable(opts) && EOF_CHAR !in data && RgbEncoded(opts, data, frames)
    ensures AllValid(frames)
    ensures FramesData(frames, |frames|) == data
  {
    var cells := CellCount(opts);
    CellCountPositive(opts);
    RgbFramesDecode(opts, data, frames, |frames|);
    DecodedWithoutEof(data, cells, |frames|);
    FramesCoverData(|data|, cells, |frames|);
  }

  /** `CeilDiv(len, 3 * cells)` frames of `cells` cells hold at least `len` channels. */
  lemma FramesCoverData(len: nat, cells: nat, n: nat)
    requires cells > 0 && n == CeilDiv(len, 3 * cells)
    ensures 3 * (n * cells) >= len
  {
    CeilDivCovers(len, 3 * cells);
    assert 3 * (n * cells) == (3 * cells) * n;
  }

  /**
   * A data byte equal to the end-of-file byte ends the decoding of its frame:
   * the bytes 65, 4, 66 come back as the single byte 65.
   */
  lemma EofInDataTruncates(opts: InjectOptions, frames: seq<VideoFrame>)
    requires Encodable(opts) && RgbEncoded(opts, [65, 4, 66], frames)
    ensures AllValid(frames)
    ensures FramesData(frames, |frames|) == [65]
  {
    var cells := CellCount(opts);
    CellCountPositive(opts);
    OneFrame(cells);
    RgbFramesDecode(opts, [65, 4, 66], frames, 1);
    StopsAtDataEof(cells);
  }

  /** One frame of the bytes 65, 4, 66 decodes to 65 alone. */
  lemma StopsAtDataEof(cells: nat)
    requires cells > 0
    ensures DecodedFrames([65, 4, 66], cells, 1) == [65]
  {
    var s := Channels([65, 4, 66], 0, 3 * cells);
    assert s[0] == 65 && s[1] == 4;
    UntilEofUnique(s, [65]);
  }

  /** Three bytes fit in one frame. */
  lemma OneFrame(cells: nat)
    requires cells > 0
    ensures CeilDiv(3, 3 * cells) == 1
  {
    DivUnique(3 + 3 * cells - 1, 3 * cells, 1, 2);
  }
}

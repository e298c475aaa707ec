# hdmifiletransporter codec, modelled in Dafny

hdmifiletransporter moves a file across an HDMI link as video. The injector
turns the file's bytes into video frames. A frame is a grid of square
*cells* of `size` x `size` pixels, and each cell is painted in one colour:

- In **RGB** mode a cell carries three bytes, in its red, green and blue.
- In **black and white** (BW) mode a cell carries one bit, white for 1 and
  black for 0.

Cells past the end of the data carry the end-of-file byte `EOF_CHAR` (4). An
all-red starting frame announces the data.

The extractor reads each cell back as the mean colour of its block. It
collects red, green and blue, and it stops a frame at the first end-of-file
byte.

This project models that codec core:

- the bit helpers (`src/bitlogics.rs`);
- the 64-bit length header (`src/instructionlogics.rs`);
- the frame type (`src/videoframe.rs`);
- the two encoders (`src/injectionlogics.rs`);
- the decoder (`src/extractionlogics.rs`);
- the command-line option defaults (`src/options.rs`).

It proves the codec's properties, ending in the RGB round trip. Data without
an end-of-file byte, painted by `data_to_frames_method_rgb` and read back by
`frames_to_data`, comes back unchanged.

Modules, one per source file, plus shared ones:

- `Common`: machine integers and `Option`/`Result`. It also has `Outcome`,
  which is `Returned`, `Panicked` or `Diverges`, for a Rust function that may
  panic or loop forever.
- `InjectionExtraction`: `EOF_CHAR` and `Color`.
- `Arith` and `BitMath`: arithmetic, and the meaning of `&`, `|`, `!`, `<<`
  and `>>` on naturals.
- `Options`, `BitLogics`, `InstructionLogics`, `VideoFrames`,
  `InjectionLogics` and `ExtractionLogics`: the source files of the same names.
- `RoundTrip`: the encoder and the decoder together.

Modelling choices:

- **Frames.** `VideoFrame` is a class over an `array2<Color>`: rows are the
  height and columns the width. The encoders write it in place through
  `Write`.
- **Loops.** The encoders' and the decoder's loops are methods with loop
  invariants. Each method is proved against a specification function of the
  data: `ShowsCells`, `RgbEncoded`, `BwEncoded`, `FrameStream`, `UntilEof`
  and `FramesData`.

## Model

| member | source | states |
|---|---|---|
| Options.ParseAppMode | src/options.rs:27-37 | Parsing succeeds exactly for "inject" and "extract". A parsed mode prints back as the input text. Any other text fails with "Unknown mode: " followed by the text. |
| Options.AppModeName | src/options.rs:17-25 | `Display` prints "inject" or "extract", and "inject" exactly for the inject mode, so the two modes print differently. |
| Options.ParseAlgoFrame | src/options.rs:49-59 | Parsing succeeds exactly for "rgb" and "bw". It prints back as the input. Other text fails with "Unknown algo: " and the text. |
| Options.AlgoFrameName | src/options.rs:39-47 | `Display` prints "rgb" or "bw", and "rgb" exactly for RGB, so the two algorithms print differently. |
| Options.AppModeRoundTrip | src/options.rs:17-37 | Parsing the display name of either mode gives that mode back. |
| Options.AlgoFrameRoundTrip | src/options.rs:39-59 | Parsing the display name of either algorithm gives that algorithm back. |
| Options.ExtractOptionsOf | src/options.rs:132-173 | It panics exactly when the mode is missing, or the mode is inject without an input file. Otherwise it returns `Ok`, never `Err`. The options are inject options exactly in inject mode. It always terminates. |
| Options.InjectDefaults | src/options.rs:135-154 | Inject mode with only a path gets output video.mp4, 30 fps, 3840 x 2160, cell size 1 and RGB. |
| Options.ExtractDefaults | src/options.rs:155-169 | Extract mode with nothing given needs no path. It gets input video.mp4, output mydata.txt, 30 fps, 3840 x 2160, size 1 and RGB. |
| Options.SuppliedValuesKept | src/options.rs:132-173 | When every argument is given, each one reaches the options unchanged, in both modes. |
| BitLogics.GetBitAt64 | src/bitlogics.rs:2-8 | It returns exactly when n < 64, and then the result is bit n of the input. Otherwise it panics. |
| BitLogics.GetBitAt | src/bitlogics.rs:11-17 | It returns exactly when n < 8, and then the result is bit n of the byte. |
| BitLogics.GetRgbForBit | src/bitlogics.rs:20-27 | A set bit is white (255, 255, 255) and a clear bit black (0, 0, 0): the three channels are equal. |
| BitLogics.GetBitFromRgb | src/bitlogics.rs:31-34 | A list of samples reads as a set bit exactly when sum >= floor(255 * len / 2), that is when twice the sum plus one reaches 255 * len. |
| BitLogics.MutateByte | src/bitlogics.rs:37-41 | It returns exactly when position < 8. Bit `position` of the result is the given bit. Every other bit equals the input's. |
| BitLogics.GetByteFromBits | src/bitlogics.rs:44-51 | The result is the value of the eight booleans read most significant first. |
| BitLogics.ByteBitsRoundTrip | src/bitlogics.rs:11-17 | Reading a byte's eight bits with `get_bit_at` and packing them gives the byte back. |
| BitLogics.BitsByteRoundTrip | src/bitlogics.rs:44-51 | Packing eight booleans gives a byte. Reading its bits back gives the booleans. |
| BitLogics.RgbForBitRoundTrip | src/bitlogics.rs:20-34 | The colour `get_rgb_for_bit` gives a bit is read back by `get_bit_from_rgb` as that bit. |
| BitLogics.BlackIsClear | src/bitlogics.rs:31-34 | All-zero channel values read as a clear bit. |
| BitLogics.WhiteIsSet | src/bitlogics.rs:31-34 | All-255 channel values read as a set bit. |
| BitLogics.MostlyBlackIsClear | src/bitlogics.rs:122-127 | Three 255s and five 0s read as a clear bit. |
| BitLogics.BitsOf54 | src/bitlogics.rs:57-88 | These are the bits of 54 as the `get_bit_at` and `get_bit_at64` tests expect. |
| BitLogics.PackExample | src/bitlogics.rs:162-168 | The bits 10011011 pack to 155. |
| BitLogics.MutateByteExamples | src/bitlogics.rs:129-146 | Setting bit 0 or bit 1 of 0 gives 1 or 2. Clearing bit 1 of 2 gives 0. |
| BitLogics.MutateClearBit | src/bitlogics.rs:37-41 | On a clear bit p, setting it adds 2^p and clearing it leaves the byte unchanged. |
| BitLogics.MutateByteSequence | src/bitlogics.rs:147-160 | Eight mutations from bit 7 down to bit 0 turn 0 into 0011 1011, step by step. |
| InstructionLogics.NewInstruction | src/instructionlogics.rs:22-30 | Flag i of the 64 flags is bit 63 - i of the length, so the most significant bit comes first. |
| InstructionLogics.GetByte | src/instructionlogics.rs:34-47 | It returns exactly when the position is below 8. The result is the value of flags 8p to 8p + 7, most significant first. |
| InstructionLogics.GetBytes | src/instructionlogics.rs:51-58 | It gives the eight header bytes, byte p being the value of flags 8p to 8p + 7. |
| InstructionLogics.GetDataSize | src/instructionlogics.rs:61-73 | The result is the value of the 64 flags read most significant first. |
| InstructionLogics.DataSizeRoundTrip | src/instructionlogics.rs:22-30 | Writing a 64-bit length into flags and reading them back gives the length. |
| InstructionLogics.HeaderRoundTrip | src/instructionlogics.rs:61-73 | Any 64 flags read as a 64-bit number. Writing that number gives the same flags back. |
| InstructionLogics.InstructionRoundTrip | src/instructionlogics.rs:171-183 | `get_data_size(new(n))` is n for every 64-bit n. |
| InstructionLogics.HeaderOfOne | src/instructionlogics.rs:80-92 | For a length of 1, only the last flag is set. |
| InstructionLogics.HeaderByteBigEndian | src/instructionlogics.rs:34-47 | Header byte p of length v is `(v >> 8(7 - p)) & 0xFF`: the header is big-endian. |
| VideoFrames.ActualLength | src/videoframe.rs:46-50 | The actual length is a multiple of the cell size. It is at most the length and within one cell of it. |
| VideoFrames.VideoFrame.constructor | src/videoframe.rs:46-62 | The new frame has an image of the given height and width and the given cell size. Its actual size is that size rounded down to whole cells. |
| VideoFrames.VideoFrame.Write | src/videoframe.rs:64-82 | It returns exactly when the whole block at (x, y) lies inside the image. It never diverges. Then the block shows the colour and every other pixel is unchanged. |
| VideoFrames.VideoFrame.From | src/videoframe.rs:84-104 | It fails exactly when the height is not a multiple of the cell size and the frame is not an instruction frame, with the source's message. Otherwise it wraps the image with its actual size. |
| InjectionLogics.CrossingAnchor | src/injectionlogics.rs:30-36 | When the width or height is not a multiple of the cell size, some block the loops visit leaves the frame, so `write` panics. |
| InjectionLogics.CellCountPositive | src/injectionlogics.rs:60-61 | An accepted geometry has at least one cell, and whole cells tile the frame exactly. |
| InjectionLogics.CreateStartingFrame | src/injectionlogics.rs:28-40 | It panics exactly on a cell size of 0 or a crossing block, and it never diverges. Otherwise every cell of the new frame is red. |
| InjectionLogics.WriteCell | src/injectionlogics.rs:81-82 | Writing a cell's colour at its anchor extends the painted region by that cell. |
| InjectionLogics.FillRgbFrame | src/injectionlogics.rs:59-84 | One new frame shows the next C cells of the RGB payload, where C is the frame's cell count. The byte index advances by 3C. |
| InjectionLogics.RgbLoopCount | src/injectionlogics.rs:57-86 | The RGB loop stops after ceil(len / 3C) frames. |
| InjectionLogics.DataToFramesRgb | src/injectionlogics.rs:53-88 | Empty data gives no frames. Otherwise it panics exactly on a cell size of 0 or a crossing block. It diverges exactly on a zero width or height. When it returns, there are ceil(len / 3C) frames, and frame p carries bytes 3pC onward padded with `EOF_CHAR`. |
| InjectionLogics.BwCounterStep | src/injectionlogics.rs:124-129 | Counting down from bit 7, bit 1 of a byte is followed by bit 7 of the next byte. The counters stay on cell 7 * byte + 7 - bit, one cell further each step. |
| InjectionLogics.BwCountersColor | src/injectionlogics.rs:110-120 | The bit the counters select is the cell's expected bit: bit 7 - g mod 7 of byte g / 7, or of `EOF_CHAR` past the data. |
| InjectionLogics.PaintBwCell | src/injectionlogics.rs:110-120 | A cell is painted white or black by bit `bit_index` of the current byte, or of `EOF_CHAR` past the data. |
| InjectionLogics.FillBwFrame | src/injectionlogics.rs:106-132 | One new frame shows the next C cells of the BW payload. The counters advance by C cells. |
| InjectionLogics.BwLoopCount | src/injectionlogics.rs:104-133 | The BW loop stops after ceil(7 * len / C) frames. |
| InjectionLogics.BwFrameLoop | src/injectionlogics.rs:104-134 | For an accepted geometry, the loop produces ceil(7 * len / C) frames. Frame p shows BW cells pC onward. |
| InjectionLogics.EmptyFrameHasNoRoom | src/injectionlogics.rs:98-102 | A frame with a zero width or height fails the `total_size < 8` check. |
| InjectionLogics.DataToFramesBw | src/injectionlogics.rs:93-135 | It panics exactly when the size is 0, when width * height / size < 8 even with no data, or when data is given and a block crosses. It never diverges. Otherwise it returns the BW encoding, and no frames for empty data. |
| InjectionLogics.DataToFrames | src/injectionlogics.rs:42-48 | The RGB algorithm behaves as the RGB encoder, and BW as the BW encoder, with each one's panic and divergence conditions. |
| InjectionLogics.RgbFrameCountExamples | src/injectionlogics.rs:197-234 | Fourteen bytes take one 10 x 10 frame but two 2 x 2 frames. Empty data takes none. |
| InjectionLogics.RgbPaddingExample | src/injectionlogics.rs:236-259 | "This" in cells gives "Thi" in the first cell, then "s" and two end-of-file bytes. |
| InjectionLogics.BwFrameCountExample | src/injectionlogics.rs:285-303 | Fourteen bytes in BW take seven 4 x 4 frames. |
| InjectionLogics.BwPaddingExample | src/injectionlogics.rs:305-337 | The first cells of byte 54 are black, black, white, white. |
| InjectionLogics.BwIgnoresBitZero | src/injectionlogics.rs:122-129 | Payloads that agree on bits 1 to 7 of every byte paint every cell alike. Bit 0 is never sent. |
| InjectionLogics.BwBitZeroExample | src/injectionlogics.rs:122-129 | Bytes 54 and 55 are sent identically. |
| ExtractionLogics.RowSamplesSum | src/extractionlogics.rs:96-108 | The samples collected from a row add up to the row's channel sum. |
| ExtractionLogics.BlockSamplesSum | src/extractionlogics.rs:96-108 | The samples collected from a block add up to the block's channel sum. |
| ExtractionLogics.MeanIsDiv | src/extractionlogics.rs:108-114 | The mean is the sum divided by the count, rounded down. It fits a byte, so the `as u8` cast never truncates. |
| ExtractionLogics.MeanWithin | src/extractionlogics.rs:108-114 | The mean lies between the smallest and the largest sample bound. |
| ExtractionLogics.UniformMean | src/extractionlogics.rs:108-114 | Samples that are all v average to v. |
| ExtractionLogics.BlockMeanIsMean | src/extractionlogics.rs:96-114 | A block's channel reading is the mean of the samples `get_pixel` collects from it. |
| ExtractionLogics.ReadRow | src/extractionlogics.rs:97-105 | It succeeds exactly when the row's `size` pixels from column x lie inside the image. It appends their three channels to the three lists. |
| ExtractionLogics.GetPixel | src/extractionlogics.rs:91-117 | It returns exactly when the block lies inside the image, and it never diverges. The result is the block's red, green and blue means. |
| ExtractionLogics.UntilEof | src/extractionlogics.rs:65-79 | The result is a prefix without `EOF_CHAR`. It is either everything, or followed by `EOF_CHAR`. |
| ExtractionLogics.UntilEofUnique | src/extractionlogics.rs:65-79 | Those three properties determine the result. |
| ExtractionLogics.FrameGrid | src/extractionlogics.rs:58-64 | The actual size is a whole number of cells that fits in the image. |
| ExtractionLogics.CellRowsAt | src/extractionlogics.rs:63-65 | Cell (cx, cy) of the grid read from the pixels is the mean colour of its block. |
| ExtractionLogics.CellStop | src/extractionlogics.rs:66-79 | The first end-of-file channel of a cell ends the frame's data with the channels before it. |
| ExtractionLogics.CellInStream | src/extractionlogics.rs:63-80 | The channels up to a cell form a prefix of the frame's whole channel stream. |
| ExtractionLogics.ReadCell | src/extractionlogics.rs:65 | Each `get_pixel` call of `frame_to_data` is in bounds and returns that cell's colour. |
| ExtractionLogics.ReadBand | src/extractionlogics.rs:64-80 | One band of cells either stops at an end-of-file byte with the frame's final result, or appends the band's channels. |
| ExtractionLogics.FrameToData | src/extractionlogics.rs:57-85 | The result is the frame's channel stream, cell by cell in row-major order, up to its first `EOF_CHAR`. It never contains `EOF_CHAR`. It holds at most 3 * (actual width / size) * (actual height / size) bytes, three per cell. |
| ExtractionLogics.AppendFrame | src/extractionlogics.rs:46-48 | One iteration appends the next frame's bytes. |
| ExtractionLogics.FramesToData | src/extractionlogics.rs:44-51 | The result is the frames' own bytes concatenated in order. It holds no `EOF_CHAR`. |
| RoundTrip.UniformBlockMean | src/extractionlogics.rs:91-117 | A block painted in one colour reads back as exactly that colour. |
| RoundTrip.FrameMatchesOptions | src/videoframe.rs:46-50 | A frame of accepted geometry has the requested cell grid, with no partial cells. |
| RoundTrip.FrameCellColor | src/injectionlogics.rs:60-82 | Every cell of a painted frame reads back as the colour it was painted. |
| RoundTrip.RgbCellChannels | src/injectionlogics.rs:65-79 | The red, green and blue of RGB cell g are data bytes 3g, 3g + 1 and 3g + 2, or `EOF_CHAR` past the end. |
| RoundTrip.RgbFrameStream | src/injectionlogics.rs:60-84 | An RGB frame's channel stream is its 3C bytes of the padded data. |
| RoundTrip.PrefixExtend | src/extractionlogics.rs:65-79 | Without `EOF_CHAR` in the data, decoding the next channels extends the decoded prefix. |
| RoundTrip.RgbFramesDecode | src/extractionlogics.rs:44-51 | For any data, the first n encoded frames decode to each frame's own bytes up to its first `EOF_CHAR`. |
| RoundTrip.DecodedWithoutEof | src/extractionlogics.rs:44-51 | Without `EOF_CHAR`, n frames of C cells decode to the first 3nC bytes of the data. |
| RoundTrip.FramesCoverData | src/injectionlogics.rs:57 | The frames the encoder makes hold at least all the data. |
| RoundTrip.RgbRoundTrip | src/injectionlogics.rs:53-88 | Data without `EOF_CHAR`, encoded with RGB and decoded with `frames_to_data`, comes back unchanged. |
| RoundTrip.EofInDataTruncates | src/extractionlogics.rs:66-68 | Data 65, 4, 66 comes back as 65 alone. A data byte equal to `EOF_CHAR` ends its frame's data. |

## Left out

- Video and file I/O are left out: `file_to_data`, `frames_to_video`, `video_to_frames`, `data_to_files`, and OpenCV's capture and writer. The decoder takes the frames as given.
- The video codec is lossy. The model reads back exactly the pixels that were written.
- `src/main.rs`, `src/lib.rs` and the `clap` parsing of the command line are left out. `extract_options` is modelled on the parsed `CliData`. The `println!` output is not modelled.
- There is no black-and-white decoder in the source, so the BW round trip is not stated. `BwIgnoresBitZero` shows that such a decoder could not recover bit 0.
- VideoFrames.VideoFrame.constructor requires a cell size above 0. With 0, the source panics on `width % 0`. The encoders check this before building a frame and return `Panicked`.
- VideoFrames.VideoFrame.From requires a cell size above 0. With 0, the source panics on `height % 0`.
- VideoFrames.VideoFrame.constructor models the three-argument `new(size, width, height)` and `write` with five arguments. `src/injectionlogics.rs` calls a two-argument `new` and a `write` that takes the size, from another revision of the frame type. The model maps those calls onto the modelled frame.
- VideoFrames.VideoFrame.From models the three-argument `from(image, size, instruction)`. `src/extractionlogics.rs` calls a two-argument version.
- A panic inside `write` leaves the cells already painted. The model reports `Panicked` before painting: the encoders check the geometry up front. `CrossingAnchor` shows a panic is really reached.
- A panic is an `Outcome` value rather than an unwinding. An infinite loop is the value `Diverges`. The RGB encoder diverges on a zero width or height, because its frames never advance through the data.
- BitLogics.MutateByte models a position of 8 or more as a panic, as a debug build does. A release build wraps the shift instead.
- BitLogics.GetBitFromRgb sums with unbounded integers. The source sums into a `u32`, which overflows only for lists of more than 16843009 values.
- InjectionLogics.DataToFramesBw computes `width * height / size` without bounds. In the source's `u32` it cannot overflow: at most 65535 * 65535.
- RoundTrip.RgbRoundTrip requires the data to hold no `EOF_CHAR` (4). Such a byte truncates its frame's data, as `EofInDataTruncates` shows.
- The starting frame is not part of the round trip. `frames_to_data` decodes only the data frames it is given.

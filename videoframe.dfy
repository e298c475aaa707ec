/**
 * One video frame (src/videoframe.rs): a height x width grid of colours
 * written and read in square blocks of `size` x `size` pixels, one block per
 * cell of information.
 */
module VideoFrames {
  import opened Common
  import opened InjectionExtraction
  import opened Arith

  /** OpenCV's `Size`. */
  datatype Size = Size(width: int, height: int)

  /**
   * `length - length % size`: the part of a frame dimension that whole cells
   * cover. It is the largest multiple of `size` not above `length`.
   */
  function ActualLength(length: nat, size: nat): (r: nat)
    requires size > 0
    ensures r % size == 0
    ensures r <= length < r + size
  {
    assert length == (length / size) * size + length % size;
    MulDivExact(length / size, size);
    length - length % size
  }

  class VideoFrame {
    /** The pixels: `image[row, column]`, `image.Length0` rows (the height) and `image.Length1` columns (the width). */
    var image: array2<Color>
    /** Side of a cell in pixels. */
    var size: u8
    /** Width and height of the image. */
    var frameSize: Size
    /** Width and height truncated to a multiple of the cell size. */
    var actualSize: Size

    ghost predicate Valid()
      reads this
    {
      && size > 0
      && frameSize == Size(image.Length1, image.Length0)
      && actualSize == Size(ActualLength(image.Length1, size), ActualLength(image.Length0, size))
    }

    /**
     * `VideoFrame::new`: a `width` x `height` image of unspecified content.
     * The source's `width % size` panics for a size of 0.
     */
    constructor (size: u8, width: u16, height: u16)
      requires size > 0
      ensures Valid() && fresh(image)
      ensures image.Length0 == height && image.Length1 == width && this.size == size
      ensures frameSize == Size(width, height)
    {
      this.size := size;
      frameSize := Size(width, height);
      actualSize := Size(width - width % size, height - height % size);
      image := new Color[height, width];
    }

    /** Wraps an existing image, as `VideoFrame::from` does on success. */
    constructor Wrap(image: array2<Color>, size: u8)
      requires size > 0
      ensures Valid() && this.image == image && this.size == size
    {
      this.image := image;
      this.size := size;
      frameSize := Size(image.Length1, image.Length0);
      actualSize := Size(image.Length1 - image.Length1 % size, image.Length0 - image.Length0 % size);
    }

    /** The `size` x `size` block anchored at column `x`, row `y` lies inside the image. */
    predicate BlockInside(x: nat, y: nat)
      reads this
    {
      y + size <= image.Length0 && x + size <= image.Length1
    }

    /** Pixel (`row`, `col`) belongs to the block anchored at column `x`, row `y`. */
    predicate InBlock(row: nat, col: nat, x: nat, y: nat)
      reads this
    {
      y <= row < y + size && x <= col < x + size
    }

    /**
     * `write`: paints the block anchored at column `x`, row `y` with
     * (`r`, `g`, `b`), pixel by pixel, rows first. Reaching a pixel outside
     * the image panics; when the block fits, every pixel of it takes the
     * colour and every other pixel keeps its old colour.
     */
    method Write(r: u8, g: u8, b: u8, x: u16, y: u16) returns (res: Outcome<()>)
      requires Valid()
      modifies image
      ensures res.Returned? <==> BlockInside(x, y)
      ensures !res.Diverges?
      ensures res.Returned? ==> forall row, col :: 0 <= row < image.Length0 && 0 <= col < image.Length1 ==>
        image[row, col] == if InBlock(row, col, x, y) then Color(r, g, b) else old(image[row, col])
    {
      var color := Color(r, g, b);
      for i := 0 to size
        invariant i > 0 ==> y + i <= image.Length0 && x + size <= image.Length1
        invariant forall row, col :: 0 <= row < image.Length0 && 0 <= col < image.Length1 ==>
          image[row, col] == if y <= row < y + i && x <= col < x + size then color else old(image[row, col])
      {
        for j := 0 to size
          invariant j > 0 ==> y + i < image.Length0 && x + j <= image.Length1
          invariant forall row, col :: 0 <= row < image.Length0 && 0 <= col < image.Length1 ==>
            image[row, col] ==
              if (y <= row < y + i && x <= col < x + size) || (row == y + i && x <= col < x + j) then color
              else old(image[row, col])
        {
          if y + i >= image.Length0 || x + j >= image.Length1 {
            return Panicked("index is out of bounds");
          }
          image[y + i, x + j] := color;
        }
      }
      return Returned(());
    }

    /**
     * `VideoFrame::from`: wraps a captured image. The image is refused when
     * its height is not a multiple of the cell size, unless it is an
     * instruction frame; the width is never checked.
     */
    static method From(image: array2<Color>, size: u8, instruction: bool) returns (r: Result<VideoFrame>)
      requires size > 0
      ensures r.Err? <==> image.Length0 % size != 0 && !instruction
      ensures r.Err? ==> r.error == "Image size is not a multiple of the size"
      ensures r.Ok? ==> fresh(r.value) && r.value.Valid() && r.value.image == image && r.value.size == size
    {
      var height := image.Length0;
      if height % size != 0 && !instruction {
        return Err("Image size is not a multiple of the size");
      }
      var frame := new VideoFrame.Wrap(image, size);
      return Ok(frame);
    }
  }
}

/**
 * What the converter reads from an opened animated image: the canvas size and,
 * per frame, its duration, its decoder tiles and the RGBA canvas the image
 * library produces for it. Decoding, `seek` and the masked paste of the chunk
 * decoder belong to the library; their outcome is recorded here as data.
 */
module Source {
  import opened Imaging

  /** The box `(x0, y0, x1, y1)` of a decoder tile. */
  datatype Region = Region(x0: int, y0: int, x1: int, y1: int)

  datatype SourceFrame = SourceFrame(
    duration: int,        // `info['duration']`, in milliseconds
    tiles: seq<Region>,   // the boxes of `im.tile` after seeking to the frame
    rendered: Image)      // a blank canvas of the source's size with this frame
                          // pasted at the origin under its own RGBA mask

  datatype SourceImage = SourceImage(width: nat, height: nat, frames: seq<SourceFrame>)

  /**
   * Every rendered canvas is exactly the source's canvas: the chunk decoder
   * starts each frame from `Image.new('RGBA', size)`, and pasting never
   * changes a canvas's extent.
   */
  ghost predicate WellFormed(src: SourceImage)
  {
    forall i :: 0 <= i < |src.frames| ==> src.frames[i].rendered.Keys == Canvas(src.width, src.height)
  }

  /** `im.n_frames` */
  function FrameCount(src: SourceImage): nat { |src.frames| }

  /** The duration of every frame, in frame order. */
  function Durations(src: SourceImage): seq<int>
  {
    seq(|src.frames|, i requires 0 <= i < |src.frames| => src.frames[i].duration)
  }

  /** The library's RGBA canvas of every frame, in frame order. */
  function Rendered(src: SourceImage): seq<Image>
  {
    seq(|src.frames|, i requires 0 <= i < |src.frames| => src.frames[i].rendered)
  }
}

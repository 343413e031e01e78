/**
 * Frames as the converter sees them: a frame is a finite map from pixel
 * positions to RGBA pixels. The pixel values themselves come from the image
 * library and are never inspected here.
 */
module Imaging {

  datatype Pos = Pos(x: int, y: int)

  datatype Pixel = Rgba(r: int, g: int, b: int, a: int)

  /** The colour `Image.new('RGBA', size)` fills a fresh canvas with. */
  const Transparent: Pixel := Rgba(0, 0, 0, 0)

  type Image = map<Pos, Pixel>

  /** A frame as carried through the pipeline: a library frame object that
      still has to be composited, or a finished raster. */
  datatype FrameData = Pending(image: Image) | Finished(image: Image)

  /** The positions of a `w` x `h` canvas anchored at the origin. */
  function Canvas(w: nat, h: nat): (c: set<Pos>)
    ensures forall p :: p in c <==> 0 <= p.x < w && 0 <= p.y < h
  {
    set x: int, y: int | 0 <= x < w && 0 <= y < h :: Pos(x, y)
  }

  /** A fresh RGBA canvas of the given size. */
  function Blank(w: nat, h: nat): (b: Image)
    ensures b.Keys == Canvas(w, h)
    ensures forall p :: p in b ==> b[p] == Transparent
  {
    map p | p in Canvas(w, h) :: Transparent
  }

  /**
   * `dst.paste(src)` without a mask: every pixel of `src` that falls on `dst`
   * replaces the pixel there, alpha included; the rest of `dst` is kept and
   * whatever of `src` lies outside `dst` is clipped away.
   */
  function Paste(dst: Image, src: Image): (r: Image)
    ensures r.Keys == dst.Keys
    ensures forall p :: p in dst && p in src ==> r[p] == src[p]
    ensures forall p :: p in dst && p !in src ==> r[p] == dst[p]
  {
    map p | p in dst :: if p in src then src[p] else dst[p]
  }
}

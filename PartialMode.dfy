/**
 * The partial-mode detector: does any frame store only an update region
 * smaller than the canvas?
 */
module PartialMode {
  import opened Source

  /**
   * A frame is partial when it has tiles and the last two components of its
   * first tile's box differ from the canvas size.
   */
  predicate IsPartialFrame(f: SourceFrame, width: int, height: int)
  {
    |f.tiles| > 0 && (f.tiles[0].x1, f.tiles[0].y1) != (width, height)
  }

  predicate HasPartialFrame(src: SourceImage)
  {
    exists i :: 0 <= i < |src.frames| && IsPartialFrame(src.frames[i], src.width, src.height)
  }

  /**
   * Scans the frames in order and returns as soon as a partial frame is seen;
   * frames without tiles are skipped.
   */
  method IsImagePartialMode(src: SourceImage) returns (partial: bool)
    ensures partial <==> HasPartialFrame(src)
  {
    var i := 0;
    while i < |src.frames|
      invariant 0 <= i <= |src.frames|
      invariant forall j :: 0 <= j < i ==> !IsPartialFrame(src.frames[j], src.width, src.height)
    {
      var f := src.frames[i];
      if |f.tiles| > 0 {
        var updateRegion := f.tiles[0];
        if (updateRegion.x1, updateRegion.y1) != (src.width, src.height) {
          return true;
        }
      }
      i := i + 1;
    }
    return false;
  }
}

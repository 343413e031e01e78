/**
 * The chunk decoder: one worker's share of the decoding. For every frame
 * index of its range it emits a record of the decoded frame, the index and
 * the frame's duration.
 */
module ChunkDecoder {
  import opened Imaging
  import opened Source
  import opened Dispatcher

  /** A decoded frame record `(frame, index, duration)`. */
  datatype Record = Record(frame: FrameData, index: int, duration: int)

  /**
   * The record for frame `i`: the library's RGBA canvas of that frame, kept
   * as a frame object awaiting compositing in partial mode and as a finished
   * raster otherwise, with the frame's own index and duration.
   */
  function DecodedRecord(src: SourceImage, i: nat, isPartial: bool): Record
    requires i < |src.frames|
  {
    var f := src.frames[i];
    Record(if isPartial then Pending(f.rendered) else Finished(f.rendered), i, f.duration)
  }

  /**
   * Emits one record per index of `frameRange`, in range order. Seeking
   * outside the frames raises in the image library, so the range must lie
   * within them (Python's `range(lo, hi)` with `lo >= hi` is empty).
   */
  method ProcessImageChunk(src: SourceImage, frameRange: Range, isPartial: bool)
    returns (records: seq<Record>)
    requires 0 <= frameRange.lo && frameRange.hi <= |src.frames|
    ensures |records| == if frameRange.lo <= frameRange.hi then frameRange.hi - frameRange.lo else 0
    ensures forall k :: 0 <= k < |records| ==>
      records[k] == DecodedRecord(src, frameRange.lo + k, isPartial)
  {
    records := [];
    var i := frameRange.lo;
    while i < frameRange.hi
      invariant frameRange.lo <= i
      invariant i <= frameRange.hi || (i == frameRange.lo && frameRange.hi < frameRange.lo)
      invariant |records| == i - frameRange.lo
      invariant forall k :: 0 <= k < |records| ==>
        records[k] == DecodedRecord(src, frameRange.lo + k, isPartial)
    {
      var f := src.frames[i];
      var newFrame := f.rendered;
      var frameTime := f.duration;
      if isPartial {
        records := records + [Record(Pending(newFrame), i, frameTime)];
      } else {
        records := records + [Record(Finished(newFrame), i, frameTime)];
      }
      i := i + 1;
    }
  }
}

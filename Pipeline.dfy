/**
 * `process_image`: detect partial mode, cut the frames into ranges, decode
 * each range, merge the records back into frame order, estimate the frame
 * rate and, for partial-mode sources, composite the frames.
 */
module Pipeline {
  import opened Wrappers
  import opened Imaging
  import opened Source
  import opened PartialMode
  import opened Dispatcher
  import opened ChunkDecoder
  import opened Merge
  import opened Compositor
  import opened RateEstimator

  /**
   * The record of every frame, in frame order: the reference the merged
   * worker results are compared with. It is already sorted by index and
   * carries the indices `0 .. n-1`.
   */
  function AllRecords(src: SourceImage, isPartial: bool): (r: seq<Record>)
    ensures |r| == |src.frames|
    ensures SortedByIndex(r)
    ensures Indices(r) == IndexRange(|src.frames|)
  {
    seq(|src.frames|, i requires 0 <= i < |src.frames| => DecodedRecord(src, i, isPartial))
  }

  /** The workers' results, one per range, in range order: the records of
      the frames of each range. */
  function DecodedChunks(src: SourceImage, bound: nat, plan: Plan, isPartial: bool): (c: seq<seq<Record>>)
    requires ValidPlan(|src.frames|, bound, plan)
    ensures |c| == plan.threads
  {
    var ranges := Partition(|src.frames|, plan);
    seq(plan.threads, j requires 0 <= j < plan.threads =>
      RangeBounds(|src.frames|, bound, plan, j);
      AllRecords(src, isPartial)[ranges[j].lo .. ranges[j].hi])
  }

  /** Where the first `j` ranges end. */
  function EndOf(ranges: seq<Range>, j: nat): int
    requires j <= |ranges|
  {
    if j == 0 then 0 else ranges[j - 1].hi
  }

  /** The first `j` chunks, flattened, are the records of the frames they cover. */
  lemma {:induction false} FlattenDecodedPrefix(src: SourceImage, bound: nat, plan: Plan, isPartial: bool, j: nat)
    requires ValidPlan(|src.frames|, bound, plan)
    requires j <= plan.threads
    ensures var ranges := Partition(|src.frames|, plan);
      0 <= EndOf(ranges, j) <= |src.frames| &&
      Flatten(DecodedChunks(src, bound, plan, isPartial)[..j]) == AllRecords(src, isPartial)[..EndOf(ranges, j)]
  {
    var ranges := Partition(|src.frames|, plan);
    var chunks := DecodedChunks(src, bound, plan, isPartial);
    if j > 0 {
      FlattenDecodedPrefix(src, bound, plan, isPartial, j - 1);
      RangeBounds(|src.frames|, bound, plan, j - 1);
      var r := ranges[j - 1];
      assert chunks[..j] == chunks[..j - 1] + [chunks[j - 1]];
      FlattenAppend(chunks[..j - 1], [chunks[j - 1]]);
      assert Flatten([chunks[j - 1]]) == chunks[j - 1];
      var all := AllRecords(src, isPartial);
      assert chunks[j - 1] == all[r.lo .. r.hi];
      assert all[..r.hi] == all[..r.lo] + all[r.lo .. r.hi];
    }
  }

  /** All chunks, flattened in range order, are all records in frame order. */
  lemma FlattenDecodedChunks(src: SourceImage, bound: nat, plan: Plan, isPartial: bool)
    requires ValidPlan(|src.frames|, bound, plan)
    ensures Flatten(DecodedChunks(src, bound, plan, isPartial)) == AllRecords(src, isPartial)
  {
    var chunks := DecodedChunks(src, bound, plan, isPartial);
    FlattenDecodedPrefix(src, bound, plan, isPartial, plan.threads);
    PartitionIsContiguous(|src.frames|, bound, plan);
    assert chunks[..plan.threads] == chunks;
    RangeBounds(|src.frames|, bound, plan, plan.threads - 1);
  }

  /**
   * Even if the workers' results arrived in another order, merging them
   * would yield every frame's record exactly once, in frame order. The
   * source gathers them in range order, where the sort changes nothing.
   */
  lemma MergeIsOrderIndependent(src: SourceImage, bound: nat, plan: Plan, isPartial: bool,
                                arrived: seq<seq<Record>>)
    requires ValidPlan(|src.frames|, bound, plan)
    requires multiset(arrived) == multiset(DecodedChunks(src, bound, plan, isPartial))
    ensures SortByIndex(Flatten(arrived)) == AllRecords(src, isPartial)
  {
    var n := |src.frames|;
    var chunks := DecodedChunks(src, bound, plan, isPartial);
    var merged := SortByIndex(Flatten(arrived));
    assert Indices(merged) == IndexRange(n) &&
           multiset(merged) == multiset(AllRecords(src, isPartial)) by {
      FlattenDecodedChunks(src, bound, plan, isPartial);
      assert Indices(Flatten(chunks)) == IndexRange(n);
      MergeRestoresOrder(chunks, arrived, n);
    }
    IndexedPermutationIsAllRecords(src, isPartial, merged);
  }

  /** A permutation of the records that carries index `k` at position `k`
      is the records in frame order. */
  lemma IndexedPermutationIsAllRecords(src: SourceImage, isPartial: bool, s: seq<Record>)
    requires Indices(s) == IndexRange(|src.frames|)
    requires multiset(s) == multiset(AllRecords(src, isPartial))
    ensures s == AllRecords(src, isPartial)
  {
    var all := AllRecords(src, isPartial);
    forall k | 0 <= k < |s|
      ensures s[k] == all[k]
    {
      assert s[k] in multiset(all);
      RecordOfIndex(src, isPartial, s[k]);
      assert s[k].index == Indices(s)[k] == k;
    }
  }

  /** Each record of the source is determined by its index. */
  lemma RecordOfIndex(src: SourceImage, isPartial: bool, x: Record)
    requires x in AllRecords(src, isPartial)
    ensures 0 <= x.index < |src.frames|
    ensures x == DecodedRecord(src, x.index, isPartial)
  {
  }

  /** The pixels of each frame. */
  function ImagesOf(frames: seq<FrameData>): seq<Image>
  {
    seq(|frames|, k requires 0 <= k < |frames| => frames[k].image)
  }

  /** The frames and durations split off the records of all frames. */
  lemma UnzippedRecords(src: SourceImage, isPartial: bool, frames: seq<FrameData>, frameTimes: seq<int>)
    requires |frames| == |frameTimes| == |src.frames|
    requires forall k :: 0 <= k < |frames| ==>
      frames[k] == AllRecords(src, isPartial)[k].frame && frameTimes[k] == AllRecords(src, isPartial)[k].duration
    ensures frameTimes == Durations(src)
    ensures isPartial ==> ImagesOf(frames) == Rendered(src)
    ensures !isPartial ==> forall k :: 0 <= k < |frames| ==> frames[k] == Finished(src.frames[k].rendered)
  {
  }

  /** Hands one range to each worker and gathers their results in range order. */
  method DecodeChunks(src: SourceImage, bound: nat, plan: Plan, frameRanges: seq<Range>, isPartial: bool)
    returns (chunks: seq<seq<Record>>)
    requires ValidPlan(|src.frames|, bound, plan)
    requires frameRanges == Partition(|src.frames|, plan)
    ensures chunks == DecodedChunks(src, bound, plan, isPartial)
  {
    ghost var expected := DecodedChunks(src, bound, plan, isPartial);
    chunks := [];
    for j := 0 to |frameRanges|
      invariant chunks == expected[..j]
    {
      RangeBounds(|src.frames|, bound, plan, j);
      var chunk := ProcessImageChunk(src, frameRanges[j], isPartial);
      assert chunk == expected[j];
      chunks := chunks + [chunk];
    }
    assert expected[..|frameRanges|] == expected;
  }

  /**
   * The partial-mode branch: composites the frames in order and turns every
   * output frame into a finished raster.
   */
  method CompositeFrames(frames: seq<FrameData>, w: nat, h: nat) returns (images: seq<FrameData>)
    ensures |images| == |frames|
    ensures forall k :: 0 <= k < |images| ==> images[k] == Finished(Composited(ImagesOf(frames), w, h)[k])
  {
    var pastingArray := Composite(ImagesOf(frames), w, h);
    images := seq(|pastingArray|, k requires 0 <= k < |pastingArray| => Finished(pastingArray[k]));
  }

  /**
   * When every frame is a full canvas, compositing changes nothing: each
   * output frame is its own input frame.
   */
  lemma CompositingFullFramesIsIdentity(src: SourceImage)
    requires WellFormed(src)
    ensures Composited(Rendered(src), src.width, src.height) == Rendered(src)
  {
    var w, h := src.width, src.height;
    var images := Rendered(src);
    var out := Composited(images, w, h);
    forall k | 0 <= k < |images|
      ensures out[k] == images[k]
    {
      FullFrameHidesEarlierFrames(images, w, h, k);
      assert out[k].Keys == images[k].Keys;
    }
  }

  /**
   * Plans the ranges, decodes each of them and merges the workers' results:
   * the outcome is every frame's record, in frame order.
   */
  method DecodeAndMerge(src: SourceImage, threadBound: nat, isPartial: bool) returns (merged: seq<Record>)
    requires threadBound >= 1
    requires |src.frames| >= 1
    ensures merged == AllRecords(src, isPartial)
  {
    var totalFrames := |src.frames|;
    var plan := PlanChunks(totalFrames, threadBound).value;
    var frameRanges := FrameRanges(totalFrames, plan);
    var chunks := DecodeChunks(src, threadBound, plan, frameRanges, isPartial);
    merged := SortByIndex(Flatten(chunks));
    FlattenDecodedChunks(src, threadBound, plan, isPartial);
    SortOfSortedIsIdentity(Flatten(chunks));
  }

  /** What `process_image` returns: the frames for the encoder and the frame rate. */
  datatype Decoded = Decoded(images: seq<FrameData>, fps: real)

  /**
   * Decodes a source into the frame sequence handed to the encoder and the
   * estimated frame rate. Workers' results are gathered in range order, as
   * the source does. Frames of a full-mode source are the library's
   * canvases; those of a partial-mode source are composited first. When the
   * durations sum to zero the rate divides by zero and nothing is returned.
   */
  method ProcessImage(src: SourceImage, threadBound: nat) returns (r: Option<Decoded>)
    requires threadBound >= 1
    requires |src.frames| >= 1
    ensures r.None? <==> Sum(Durations(src)) == 0
    ensures r.Some? ==> Fps(Durations(src)) == Some(r.value.fps)
    ensures r.Some? ==> |r.value.images| == |src.frames|
    ensures r.Some? && !HasPartialFrame(src) ==>
      forall k :: 0 <= k < |r.value.images| ==> r.value.images[k] == Finished(src.frames[k].rendered)
    ensures r.Some? && HasPartialFrame(src) ==>
      forall k :: 0 <= k < |r.value.images| ==>
        r.value.images[k] == Finished(Composited(Rendered(src), src.width, src.height)[k])
    ensures r.Some? && WellFormed(src) ==>
      forall k :: 0 <= k < |r.value.images| ==> r.value.images[k] == Finished(src.frames[k].rendered)
  {
    var isPartial := IsImagePartialMode(src);
    var merged := DecodeAndMerge(src, threadBound, isPartial);
    var frames, frameTimes := Unzip(merged);
    UnzippedRecords(src, isPartial, frames, frameTimes);
    var fps := Fps(frameTimes);
    if fps.None? {
      return None;
    }

    var images;
    if isPartial {
      images := CompositeFrames(frames, src.width, src.height);
      if WellFormed(src) {
        CompositingFullFramesIsIdentity(src);
      }
    } else {
      images := frames;
    }
    r := Some(Decoded(images, fps.value));
  }
}

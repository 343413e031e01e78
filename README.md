# Animated WebP to MP4: a Dafny model of the frame bookkeeping

The converter `webptomp4.py` opens an animated image, finds out whether its
frames store the whole canvas or only an update region ("partial mode"),
cuts the frame indices into one contiguous range per worker process, decodes
each range into `(frame, index, duration)` records, merges the workers'
records back into frame order, estimates the frame rate from the durations,
composites partial-mode frames onto the previous output frame, and hands the
frames to a video encoder. Before all that, `webp_mp4` derives the output
path from the input path when none is given.

This project models that bookkeeping. Image decoding, the process pool and
the encoder belong to libraries and are abstracted away.

- `Imaging`: frames as maps from pixel positions to RGBA pixels. It defines a
  blank canvas and the mask-less `paste`, which overwrites the target on the
  source's extent and copies alpha too.
- `Source`: what the decoder reports about the opened image. That is the
  canvas size and, per frame, its duration, its tile boxes, and the RGBA
  canvas the library renders for it. The rendered canvas is what the chunk
  decoder's masked paste produces; it is treated as data.
- `PartialMode`: `is_image_partial_mode` as a scan with early return.
- `Dispatcher`: `THREADS`, the integer version of `pool_size` and `threads`,
  and the range construction.
- `ChunkDecoder`: `process_image_chunk` as a loop emitting one record per index.
- `Merge`: flattening, the stable sort by index, and the unzip into frames and durations.
- `Compositor`: the progressive compositing loop.
- `RateEstimator`: the frame-rate formula over exact rationals.
- `Strings` and `Output`: `split`/`join`, `str` of an integer, and the
  output-path derivation of `webp_mp4`, including the search for a free
  numeric suffix.
- `Pipeline`: `process_image` end to end.

What the code does that a reader might not expect:

- The partial-mode test compares the last two components of the first tile's
  box, `(x1, y1)`, with the canvas size. Those components are the box's end
  coordinates, not its width and height. A tile that ends at the canvas
  corner counts as full, wherever it starts.
- Both pastes in the compositor are mask-less, so they copy pixels with their
  alpha. Each chunk decoder output is a full canvas of the source's size
  (`Source.WellFormed`), so every output frame equals its own input frame
  (`Compositor.FullFrameHidesEarlierFrames`,
  `Pipeline.CompositingFullFramesIsIdentity`, and the last clause of
  `Pipeline.ProcessImage`). Transparent pixels of a later
  frame do not let the previous output show through. Pixels persist only
  where an input frame's extent does not reach (`Compositor.CompositedFollows`).
- Output frame 0 is input frame 0 pasted on a blank canvas, not the input
  frame itself. The two agree when the input covers the canvas.

## Model

| member | source | states |
|---|---|---|
| `Dispatcher.ThreadBound` | webptomp4.py:13-14 | The worker bound is between 1 and 16, at most the CPU count, and equal to one of the two. |
| `Dispatcher.CeilDiv` | webptomp4.py:60-61 | The integer ceiling of `a / b` is the least `q` with `q * b >= a`. |
| `Dispatcher.PlanChunks` | webptomp4.py:60-61 | There is no plan exactly when there are no frames. Otherwise `pool_size` is the ceiling of `total / bound`, that is `(pool_size-1)*bound < total <= pool_size*bound`; `pool_size >= 1`, `1 <= threads <= bound`, `threads <= total`, and `(threads-1)*pool_size < total <= threads*pool_size`. |
| `Dispatcher.Partition` | webptomp4.py:66-67 | There are `threads` ranges. The first starts at 0, the last ends at `total`, and each range starts where the previous one ends. |
| `Dispatcher.FrameRanges` | webptomp4.py:64-67 | The loop builds range `j` as `[pool_size*j, pool_size*(j+1))`, except that the last range ends at `total`. |
| `Dispatcher.PartitionIsContiguous` | webptomp4.py:60-67 | Under a valid plan there are `threads` ranges. The first starts at 0 and the last ends at `total`. Each range starts where the previous one ends. Every range is non-empty, lies within `[0, total]` and holds at most `pool_size` indices. |
| `Dispatcher.RangeBounds` | webptomp4.py:60-67 | Under a valid plan, range `j` is non-empty, holds at most `pool_size` indices, lies within `[0, total]`, and starts where range `j-1` ends (at 0 for `j = 0`). |
| `Dispatcher.RangeOf` | webptomp4.py:60-67 | Every frame index `i` lies in range `i / pool_size`, which exists. |
| `Dispatcher.PartitionCovers` | webptomp4.py:60-67 | An index lies in some range if and only if it is in `[0, total)`. |
| `Dispatcher.RangesAreOrdered` | webptomp4.py:66-67 | Every range ends no later than any later range starts. |
| `Dispatcher.PartitionIsDisjoint` | webptomp4.py:66-67 | No index lies in two different ranges. |
| `PartialMode.IsImagePartialMode` | webptomp4.py:16-29 | The result is true if and only if some frame has a tile and its first tile's `(x1, y1)` differs from the canvas size. Frames without tiles never make it true, and a source with no frames gives false. |
| `ChunkDecoder.ProcessImageChunk` | webptomp4.py:31-51 | There is exactly one record per index of the range, in range order. Record `k` carries index `lo+k`, that frame's duration, and that frame's canvas. The canvas is tagged Pending in partial mode and Finished otherwise. An empty range gives no records. |
| `Merge.Flatten` | webptomp4.py:76 | A record is in the flattened list exactly when it is in one of the chunks. |
| `Merge.Insert` | webptomp4.py:77 | Inserting keeps every element (as a multiset), adds exactly the new record, and keeps a list sorted by index sorted. |
| `Merge.SortByIndex` | webptomp4.py:77 | The result is sorted by index and is a permutation of the input, of the same length. |
| `Merge.SortOfSortedIsIdentity` | webptomp4.py:77 | Sorting a list that is already in index order returns it unchanged. |
| `Merge.SortIsIdempotent` | webptomp4.py:77 | Sorting twice gives the same list as sorting once. |
| `Merge.FlattenAppend` | webptomp4.py:76 | Flattening distributes over concatenating the lists of chunks. |
| `Merge.FlattenPermutation` | webptomp4.py:71-76 | Chunks gathered in another order flatten to a permutation of the same records. |
| `Merge.SortedPermutationOfRange` | webptomp4.py:76-77 | Take a list sorted by index whose indices are a permutation of `0..n-1`. It carries index `k` at position `k`. |
| `Merge.MergeRestoresOrder` | webptomp4.py:71-77 | Suppose the chunks, in range order, hold the indices `0..n-1`. Then sorting any rearrangement of them yields exactly `0..n-1` in order, and the result is a permutation of the records. |
| `Merge.Unzip` | webptomp4.py:78-82 | `images[k]` and `frame_times[k]` are the frame and the duration of sorted record `k`, and both lists have the records' length. |
| `Imaging.Blank` | webptomp4.py:39 | `Image.new('RGBA', size)` covers exactly the `w` x `h` canvas, and every pixel is transparent. |
| `Imaging.Paste` | webptomp4.py:93-94 | A mask-less paste keeps the target's extent. Where the pasted image reaches, its pixels replace the target's, alpha included. Elsewhere the target is unchanged. |
| `Compositor.Step` | webptomp4.py:91-95 | One output frame covers exactly the canvas. At a pixel the current input reaches, it shows the input's pixel. Elsewhere it shows the previous output's pixel if there is one, and is transparent otherwise. |
| `Compositor.Composited` | webptomp4.py:88-95 | The compositing specification yields one output frame per input frame; frame `i` is the step from the frames before it. |
| `Compositor.Composite` | webptomp4.py:88-95 | The loop's output is the compositing specification `Composited` of its input. |
| `Compositor.CompositedPrefix` | webptomp4.py:90-95 | The output for a prefix of the input is the same prefix of the output. |
| `Compositor.CompositedAt` | webptomp4.py:91-95 | Output frame `i` is the step taken from the output frames before it. |
| `Compositor.CompositedFirst` | webptomp4.py:91-94 | Output frame 0 is input frame 0 pasted on a blank canvas. |
| `Compositor.CompositedFollows` | webptomp4.py:92-94 | For `i > 0`, output `i` is output `i-1` overwritten by input `i` on that input's extent. Both outputs cover the canvas, and pixels outside input `i`'s extent are unchanged. |
| `Compositor.CompositedPixels` | webptomp4.py:88-95 | Every output frame covers exactly the canvas. Each of its pixels comes from the latest input frame, up to that one, whose extent covers it; if no such frame exists the pixel is transparent. |
| `Compositor.FullFrameHidesEarlierFrames` | webptomp4.py:91-94 | An input frame covering the whole canvas yields an output frame equal to that input cut to the canvas. |
| `RateEstimator.Sum` | webptomp4.py:85 | `sum(frame_times)` adds the durations; the total of non-negative durations is non-negative. |
| `RateEstimator.Fps` | webptomp4.py:84-85 | There is no rate exactly when there are no durations or they sum to zero (Python's division by zero). Otherwise `fps * sum(durations) == 1000 * len(durations)`. |
| `RateEstimator.SumOfUniform` | webptomp4.py:85 | `n` durations of `d` ms sum to `n * d`. |
| `RateEstimator.UniformDurations` | webptomp4.py:85 | With every frame lasting `d != 0` ms the rate is `1000 / d`. |
| `Strings.Split` | webptomp4.py:102 | `s.split(c)` yields at least one piece, and no piece contains `c`. |
| `Strings.Join` | webptomp4.py:102 | A character occurs in `c.join(parts)` exactly when it occurs in some piece, or it is `c` and there are at least two pieces. |
| `Strings.JoinSplitReplaces` | webptomp4.py:102 | `b.join(s.split(a))` replaces every `a` by `b` and leaves every other character in place. |
| `Strings.JoinSplitRoundTrip` | webptomp4.py:105 | `c.join(s.split(c))` gives back `s`. |
| `Strings.DropLastSegment` | webptomp4.py:105 | `'.'.join(s.split('.')[0:-1])` is everything before the last `.`, or empty when there is none. The same holds for `/` at line 124. |
| `Strings.BeforeLast` | webptomp4.py:124 | What precedes the last separator is a prefix of the string. It is followed by the separator, which does not occur after it. It is empty when the separator does not occur. |
| `Strings.NatToString` | webptomp4.py:109 | `str(n)` is a non-empty string of decimal digits without a leading zero. |
| `Strings.ParseNatToString` | webptomp4.py:109 | Reading the digits of `str(n)` back gives `n`. |
| `Strings.NatToStringInjective` | webptomp4.py:109 | Distinct indices print differently. |
| `Output.NormalizeSeparators` | webptomp4.py:102 | `'/'.join(path.split('\\'))` replaces every backslash by `/`, keeps every other character, and leaves no backslash. |
| `Output.Suffix` | webptomp4.py:107-113 | The suffix is empty exactly for the first probe; every later suffix is decimal digits. |
| `Output.Candidate` | webptomp4.py:109 | The probed path is the working directory, `/`, the base name, the suffix and `.mp4`. |
| `Output.CandidateInjective` | webptomp4.py:109 | Different suffixes probe different paths. |
| `Output.ProbedDistinct` | webptomp4.py:107-113 | The first `n` probes hit `n` distinct paths, none of them a later probe's. |
| `Output.FindFreeSuffix` | webptomp4.py:107-113 | The loop stops for any finite set of existing paths. The suffix it stops at is the least one in `'', 1, 2, ...` whose path does not exist, and it is at most the number of existing paths. |
| `Output.WebpMp4` | webptomp4.py:101-126 | The input becomes its path with `/` separators. A missing input is reported with its full path. A given outfile only gets `/` separators. Otherwise the outfile is the input before its last `.`, plus the least free suffix, plus `.mp4`. The output directory is the working directory plus everything of the outfile before its last `/`. It is created exactly when it does not exist. |
| `Pipeline.AllRecords` | webptomp4.py:31-51 | The reference list of every frame's record in frame order: one record per frame, sorted by index, carrying exactly the indices `0..n-1`. |
| `Pipeline.FlattenDecodedPrefix` | webptomp4.py:66-76 | The first `j` chunks, flattened, are the records of the frames before the end of range `j-1`. |
| `Pipeline.FlattenDecodedChunks` | webptomp4.py:66-76 | All chunks, flattened in range order, are every frame's record in frame order. |
| `Pipeline.MergeIsOrderIndependent` | webptomp4.py:63-77 | A robustness property: even if the workers' results arrived in another order, flattening and sorting would still yield every frame's record exactly once, in frame order. The source itself gathers them in range order (line 71). |
| `Pipeline.IndexedPermutationIsAllRecords` | webptomp4.py:77 | A permutation of the records carrying index `k` at position `k` is the records in frame order. |
| `Pipeline.DecodeChunks` | webptomp4.py:66-71 | One worker per range, gathered in range order, returns exactly the decoded chunks. |
| `Pipeline.DecodeAndMerge` | webptomp4.py:60-77 | Planning, decoding every range and sorting the flattened results gives every frame's record in frame order. Since the results are gathered in range order, the flattened list is already sorted and the sort returns it unchanged. |
| `Pipeline.CompositeFrames` | webptomp4.py:88-97 | The partial-mode branch returns one finished raster per frame, equal to the compositing of the frames' pixels. |
| `Pipeline.CompositingFullFramesIsIdentity` | webptomp4.py:88-95 | When every frame is a full canvas, as the chunk decoder makes it, compositing returns the frames unchanged. |
| `Pipeline.ProcessImage` | webptomp4.py:53-99 | Nothing is returned exactly when the durations sum to zero, where line 85 divides by zero. Otherwise there is one output frame per source frame, and the rate is computed from the source's durations in frame order. A full-mode source's frames are the library's canvases, finished. A partial-mode source's frames are the compositing of those canvases. When every canvas covers exactly the canvas, as the chunk decoder makes it (`Source.WellFormed`), in both modes output frame `k` is source frame `k`'s canvas. |

## Left out

- Decoding, `seek`, `convert('RGBA')`, the masked paste in the chunk decoder and `np.array`: these are image-library calls. Their outcome per frame is the `rendered` canvas of `Source.SourceFrame`. Pending and Finished frames carry the same pixel map.
- Alpha-aware blending: the model's pastes are mask-less, as in the compositor, and pixel values are never inspected.
- `multiprocessing.Pool`, `apply_async` and `res.get(timeout=...)`: these concern concurrency. Workers run one after another, and their results are gathered in range order, as `res.get` collects them at line 71. The sort at line 77 therefore receives a sorted list and returns it unchanged. `Pipeline.MergeIsOrderIndependent` additionally shows that any other order would be merged back too.
- The timeout branch: after a timeout, `indexed_image_arrays` is unbound and line 76 raises. It is not modelled.
- Decode errors inside a worker (a corrupt frame, a frame without a `duration` entry): they end the run and are not modelled.
- `Pipeline.ProcessImage`: requires at least one frame, which any opened image has. With zero frames the source fails converting NaN to an integer; `Dispatcher.PlanChunks` returns `None` for that case.
- `Dispatcher.PlanChunks`: `np.ceil` runs on floating point. The model uses exact integer ceilings, which agree with it for frame counts below 2^53.
- `Pipeline.ProcessImage`: the `ZeroDivisionError` that line 85 raises for a zero total duration is modelled as a `None` result rather than as an exception.
- `RateEstimator.Fps`: computed over exact rationals instead of IEEE doubles.
- `Merge.SortByIndex`: the sort is stable, but stability is not stated as a property. In use every index occurs once, so it has no effect.
- `os.getcwd`, `os.path.exists` and `os.mkdir`: the working directory is a parameter and the file system is a set of existing paths. Creating the directory is reported as a flag.
- Timing, the messages printed, argparse and the `ImageSequenceClip` / `write_videofile` encoder call: these are I/O and CLI glue.

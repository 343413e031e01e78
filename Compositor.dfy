/**
 * The progressive compositor for partial-mode sources: every output frame is
 * a blank canvas, overwritten by the previous output frame, then overwritten
 * by the current input frame. Both pastes are mask-less, so they copy alpha
 * as well and do not blend.
 */
module Compositor {
  import opened Imaging

  /** The output frame that follows the outputs `prev` when the next input is `img`. */
  function Step(prev: seq<Image>, img: Image, w: nat, h: nat): (r: Image)
    ensures r.Keys == Canvas(w, h)
    ensures forall p :: p in Canvas(w, h) && p in img ==> r[p] == img[p]
    ensures forall p :: p in Canvas(w, h) && p !in img ==>
      r[p] == if |prev| > 0 && p in prev[|prev| - 1] then prev[|prev| - 1][p] else Transparent
  {
    var newFrame := Blank(w, h);
    var base := if |prev| > 0 then Paste(newFrame, prev[|prev| - 1]) else newFrame;
    Paste(base, img)
  }

  /** The compositor's output for `images`, one frame per input frame. */
  function Composited(images: seq<Image>, w: nat, h: nat): (out: seq<Image>)
    ensures |out| == |images|
  {
    if images == [] then []
    else
      var prev := Composited(images[..|images| - 1], w, h);
      prev + [Step(prev, images[|images| - 1], w, h)]
  }

  method Composite(images: seq<Image>, w: nat, h: nat) returns (out: seq<Image>)
    ensures out == Composited(images, w, h)
  {
    out := [];
    for i := 0 to |images|
      invariant out == Composited(images[..i], w, h)
    {
      var newFrame := Blank(w, h);
      if i > 0 {
        newFrame := Paste(newFrame, out[i - 1]);
      }
      newFrame := Paste(newFrame, images[i]);
      out := out + [newFrame];
      assert images[..i + 1][..i] == images[..i];
    }
    assert images[..|images|] == images;
  }

  /** The output for a prefix of the input is the prefix of the output. */
  lemma {:induction false} CompositedPrefix(images: seq<Image>, w: nat, h: nat, k: nat)
    requires k <= |images|
    ensures Composited(images[..k], w, h) == Composited(images, w, h)[..k]
    decreases |images|
  {
    if k < |images| {
      var init := images[..|images| - 1];
      assert images[..k] == init[..k];
      CompositedPrefix(init, w, h, k);
    } else {
      assert images[..k] == images;
    }
  }

  /** Output frame `i` is the step taken from the outputs before it. */
  lemma CompositedAt(images: seq<Image>, w: nat, h: nat, i: nat)
    requires i < |images|
    ensures Composited(images, w, h)[i] == Step(Composited(images, w, h)[..i], images[i], w, h)
  {
    CompositedPrefix(images, w, h, i + 1);
    CompositedPrefix(images, w, h, i);
    assert images[..i + 1][..i] == images[..i];
  }

  /**
   * The pixel the compositor shows at `p` in frame `i`: that of the latest
   * input frame up to `i` whose extent covers `p`, or transparent if none does.
   */
  function Latest(images: seq<Image>, i: nat, p: Pos): Pixel
    requires i < |images|
  {
    if p in images[i] then images[i][p]
    else if i == 0 then Transparent
    else Latest(images, i - 1, p)
  }

  /**
   * Every output frame covers exactly the canvas, and each of its pixels is
   * that of the latest input frame covering it.
   */
  lemma {:induction false} CompositedPixels(images: seq<Image>, w: nat, h: nat, i: nat)
    requires i < |images|
    ensures Composited(images, w, h)[i].Keys == Canvas(w, h)
    ensures forall p :: p in Canvas(w, h) ==> Composited(images, w, h)[i][p] == Latest(images, i, p)
  {
    var out := Composited(images, w, h);
    CompositedAt(images, w, h, i);
    if i > 0 {
      CompositedPixels(images, w, h, i - 1);
      assert out[..i][i - 1] == out[i - 1];
    }
  }

  /** Output frame 0 is input frame 0 pasted on a blank canvas. */
  lemma CompositedFirst(images: seq<Image>, w: nat, h: nat)
    requires |images| > 0
    ensures Composited(images, w, h)[0] == Paste(Blank(w, h), images[0])
  {
    CompositedAt(images, w, h, 0);
  }

  /**
   * Every later output frame is the previous output frame overwritten by the
   * current input frame on that frame's extent; outside it nothing changes.
   */
  lemma CompositedFollows(images: seq<Image>, w: nat, h: nat, i: nat)
    requires 0 < i < |images|
    ensures Composited(images, w, h)[i] == Paste(Composited(images, w, h)[i - 1], images[i])
    ensures Composited(images, w, h)[i].Keys == Composited(images, w, h)[i - 1].Keys == Canvas(w, h)
    ensures forall p :: p in Canvas(w, h) && p !in images[i] ==>
      Composited(images, w, h)[i][p] == Composited(images, w, h)[i - 1][p]
  {
    var out := Composited(images, w, h);
    CompositedAt(images, w, h, i);
    CompositedPixels(images, w, h, i - 1);
    CompositedPixels(images, w, h, i);
    assert out[..i][i - 1] == out[i - 1];
    assert Paste(Blank(w, h), out[i - 1]) == out[i - 1];
  }

  /**
   * An input frame that covers the whole canvas hides everything before it:
   * its output frame is that input frame cut to the canvas.
   */
  lemma FullFrameHidesEarlierFrames(images: seq<Image>, w: nat, h: nat, i: nat)
    requires i < |images|
    requires Canvas(w, h) <= images[i].Keys
    ensures Composited(images, w, h)[i] == map p | p in Canvas(w, h) :: images[i][p]
  {
    CompositedPixels(images, w, h, i);
  }
}

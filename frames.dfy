/** Decoded images and the frame-size reconciliation of `resize` (main.py).
    An image is abstracted to its shape; the raster itself is an opaque value of
    type `P`, and the library's resampling and colour conversion are function
    parameters that produce new raster values. */
module Frames {

  /** How the raster stores colour: a 2-D array with no channel axis (grayscale),
      or a 3-D array whose last axis has `channels` entries. */
  datatype Layout = Plane | Stacked(channels: nat)

  datatype Image<P> = Image(height: nat, width: nat, layout: Layout, pixels: P)

  /** The alignment mode that selects the per-axis minimum; every other mode
      string selects the maximum. */
  const Smallest: string := "smallest"

  /** The mode the video pipeline uses. */
  const Largest: string := "largest"

  /** `img.shape[:2] == (h, w)`. */
  predicate HasShape<P>(img: Image<P>, h: nat, w: nat) {
    img.height == h && img.width == w
  }

  // ---------------------------------------------------------------------------
  // Colour canonicalisation (the branch on img.shape before img_array.append)
  // ---------------------------------------------------------------------------

  /** A layout the colour conversion leaves unchanged: anything but 2-D or
      4 channels. */
  predicate Unconverted(layout: Layout) {
    layout != Plane && layout != Stacked(4)
  }

  /** A 2-D image is converted from gray, a 4-channel one from BGRA; both become
      3-channel with their size kept. `recolor` stands for the library's pixel
      conversion. Every other layout passes through untouched. */
  function Canonicalise<P>(img: Image<P>, recolor: Image<P> -> P): (r: Image<P>)
    ensures HasShape(r, img.height, img.width)
    ensures Unconverted(r.layout)
    ensures Unconverted(img.layout) ==> r == img
    ensures !Unconverted(img.layout) ==> r.layout == Stacked(3)
  {
    if img.layout == Plane then Image(img.height, img.width, Stacked(3), recolor(img))
    else if img.layout == Stacked(4) then Image(img.height, img.width, Stacked(3), recolor(img))
    else img
  }

  lemma CanonicaliseIdempotent<P>(img: Image<P>, recolor: Image<P> -> P)
    ensures Canonicalise(Canonicalise(img, recolor), recolor) == Canonicalise(img, recolor)
  {
  }

  // ---------------------------------------------------------------------------
  // Target size: the first loop of resize
  // ---------------------------------------------------------------------------

  /** One step of the scan: `min` in the smallest mode, `max` otherwise. */
  function Pick(smallest: bool, acc: nat, x: nat): nat {
    if smallest then (if x < acc then x else acc) else (if x > acc then x else acc)
  }

  /** The scan of the first loop over one axis, seeded with the first element and
      folded left over the others. The result bounds every element on the side the
      mode selects and is itself one of the elements. */
  function Extreme(smallest: bool, xs: seq<nat>): (r: nat)
    requires |xs| > 0
    ensures forall i :: 0 <= i < |xs| ==> if smallest then r <= xs[i] else xs[i] <= r
    ensures exists i :: 0 <= i < |xs| && xs[i] == r
  {
    if |xs| == 1 then xs[0]
    else
      var acc := Extreme(smallest, xs[..|xs| - 1]);
      Pick(smallest, acc, xs[|xs| - 1])
  }

  function Heights<P>(images: seq<Image<P>>): (hs: seq<nat>)
    ensures |hs| == |images|
    ensures forall i :: 0 <= i < |images| ==> hs[i] == images[i].height
  {
    seq(|images|, i requires 0 <= i < |images| => images[i].height)
  }

  function Widths<P>(images: seq<Image<P>>): (ws: seq<nat>)
    ensures |ws| == |images|
    ensures forall i :: 0 <= i < |images| ==> ws[i] == images[i].width
  {
    seq(|images|, i requires 0 <= i < |images| => images[i].width)
  }

  /** The target height chosen for `images` under `mode`. */
  function TargetHeight<P>(images: seq<Image<P>>, mode: string): nat
    requires |images| > 0
  {
    Extreme(mode == Smallest, Heights(images))
  }

  /** The target width chosen for `images` under `mode`, independently of the height. */
  function TargetWidth<P>(images: seq<Image<P>>, mode: string): nat
    requires |images| > 0
  {
    Extreme(mode == Smallest, Widths(images))
  }

  /** Under `smallest` the target is at most every image's size on each axis, under
      any other mode at least; on each axis some image attains it. */
  lemma TargetBounds<P>(images: seq<Image<P>>, mode: string)
    requires |images| > 0
    ensures forall i :: 0 <= i < |images| ==>
      if mode == Smallest
      then TargetHeight(images, mode) <= images[i].height && TargetWidth(images, mode) <= images[i].width
      else images[i].height <= TargetHeight(images, mode) && images[i].width <= TargetWidth(images, mode)
    ensures exists i :: 0 <= i < |images| && images[i].height == TargetHeight(images, mode)
    ensures exists i :: 0 <= i < |images| && images[i].width == TargetWidth(images, mode)
  {
    var hs, ws := Heights(images), Widths(images);
    var ih :| 0 <= ih < |hs| && hs[ih] == Extreme(mode == Smallest, hs);
    var iw :| 0 <= iw < |ws| && ws[iw] == Extreme(mode == Smallest, ws);
    assert images[ih].height == TargetHeight(images, mode);
    assert images[iw].width == TargetWidth(images, mode);
  }

  /** A scan over equal values returns that value. */
  lemma {:induction false} ExtremeOfConstant(smallest: bool, xs: seq<nat>, v: nat)
    requires |xs| > 0
    requires forall i :: 0 <= i < |xs| ==> xs[i] == v
    ensures Extreme(smallest, xs) == v
  {
    if |xs| > 1 {
      ExtremeOfConstant(smallest, xs[..|xs| - 1], v);
    }
  }

  // ---------------------------------------------------------------------------
  // The second loop of resize
  // ---------------------------------------------------------------------------

  /** One element of the second loop: an image already of shape (h, w) is copied,
      any other is resampled to (h, w) keeping its layout. */
  function Fit<P>(img: Image<P>, h: nat, w: nat, resample: (Image<P>, nat, nat) -> P): Image<P> {
    if HasShape(img, h, w) then img else Image(h, w, img.layout, resample(img, h, w))
  }

  /** The list `resize` returns, as a function of its inputs. */
  function Normalize<P>(images: seq<Image<P>>, mode: string, resample: (Image<P>, nat, nat) -> P): (r: seq<Image<P>>)
    requires |images| > 0
    ensures |r| == |images|
    ensures forall i :: 0 <= i < |r| ==>
      HasShape(r[i], TargetHeight(images, mode), TargetWidth(images, mode)) && r[i].layout == images[i].layout
  {
    var h, w := TargetHeight(images, mode), TargetWidth(images, mode);
    seq(|images|, i requires 0 <= i < |images| => Fit(images[i], h, w, resample))
  }

  /** When every image already has one shape, that shape is the target under any
      mode and the result equals the input element for element. */
  lemma UniformUnchanged<P>(images: seq<Image<P>>, mode: string, resample: (Image<P>, nat, nat) -> P)
    requires |images| > 0
    requires forall i :: 0 <= i < |images| ==> HasShape(images[i], images[0].height, images[0].width)
    ensures TargetHeight(images, mode) == images[0].height && TargetWidth(images, mode) == images[0].width
    ensures Normalize(images, mode, resample) == images
  {
    ExtremeOfConstant(mode == Smallest, Heights(images), images[0].height);
    ExtremeOfConstant(mode == Smallest, Widths(images), images[0].width);
  }

  /** Reconciling sizes a second time changes nothing. */
  lemma NormalizeIdempotent<P>(images: seq<Image<P>>, mode: string, resample: (Image<P>, nat, nat) -> P)
    requires |images| > 0
    ensures var once := Normalize(images, mode, resample);
      TargetHeight(once, mode) == TargetHeight(images, mode)
      && TargetWidth(once, mode) == TargetWidth(images, mode)
      && Normalize(once, mode, resample) == once
  {
    var once := Normalize(images, mode, resample);
    UniformUnchanged(once, mode, resample);
  }

  /** A single image is its own target and comes back unchanged. */
  lemma SingleImage<P>(img: Image<P>, mode: string, resample: (Image<P>, nat, nat) -> P)
    ensures TargetHeight([img], mode) == img.height && TargetWidth([img], mode) == img.width
    ensures Normalize([img], mode, resample) == [img]
  {
    UniformUnchanged([img], mode, resample);
  }

  /** The two axes are chosen independently: sizes (w, h) of 10x10, 20x20 and 5x30
      give 5x10 under `smallest` and 20x30 under `largest`, and neither target is the
      size of any one input. */
  lemma AxesIndependent(p: int)
    ensures var images := [Image(10, 10, Stacked(3), p), Image(20, 20, Stacked(3), p), Image(30, 5, Stacked(3), p)];
      && TargetWidth(images, Smallest) == 5 && TargetHeight(images, Smallest) == 10
      && TargetWidth(images, Largest) == 20 && TargetHeight(images, Largest) == 30
      && forall i :: 0 <= i < |images| ==> !HasShape(images[i], 10, 5) && !HasShape(images[i], 30, 20)
  {
    var images := [Image(10, 10, Stacked(3), p), Image(20, 20, Stacked(3), p), Image(30, 5, Stacked(3), p)];
    assert Heights(images) == [10, 20, 30];
    assert Widths(images) == [10, 20, 5];
    assert [10, 20, 30][..2] == [10, 20] && [10, 20, 5][..2] == [10, 20] && [10, 20][..1] == [10];
    assert Extreme(true, [10, 20]) == 10 && Extreme(false, [10, 20]) == 20;
  }

  /** Extending the scanned prefix by one image applies one more `Pick` per axis. */
  lemma ScanStep<P>(images: seq<Image<P>>, i: nat, smallest: bool)
    requires 0 < i < |images|
    ensures Extreme(smallest, Heights(images[..i + 1]))
      == Pick(smallest, Extreme(smallest, Heights(images[..i])), images[i].height)
    ensures Extreme(smallest, Widths(images[..i + 1]))
      == Pick(smallest, Extreme(smallest, Widths(images[..i])), images[i].width)
  {
    assert Heights(images[..i + 1])[..i] == Heights(images[..i]);
    assert Widths(images[..i + 1])[..i] == Widths(images[..i]);
  }

  /** A list built element by element with `Fit` at the target is `Normalize`. */
  lemma FitsAreNormalize<P>(images: seq<Image<P>>, mode: string, resample: (Image<P>, nat, nat) -> P, resized: seq<Image<P>>)
    requires |images| > 0 && |resized| == |images|
    requires forall j :: 0 <= j < |images| ==>
      resized[j] == Fit(images[j], TargetHeight(images, mode), TargetWidth(images, mode), resample)
    ensures resized == Normalize(images, mode, resample)
    ensures var h, w := TargetHeight(images, mode), TargetWidth(images, mode);
      && (forall j :: 0 <= j < |images| && HasShape(images[j], h, w) ==> resized[j] == images[j])
      && (forall j :: 0 <= j < |images| && !HasShape(images[j], h, w) ==> resized[j].pixels == resample(images[j], h, w))
  {
  }

  /** The first loop of `resize`: the per-axis minimum or maximum, in shape order. */
  method ScanTarget<P>(images: seq<Image<P>>, mode: string) returns (height: nat, width: nat)
    requires |images| > 0
    ensures height == TargetHeight(images, mode) && width == TargetWidth(images, mode)
  {
    height, width := images[0].height, images[0].width;
    for i := 1 to |images|
      invariant height == Extreme(mode == Smallest, Heights(images[..i]))
      invariant width == Extreme(mode == Smallest, Widths(images[..i]))
    {
      ScanStep(images, i, mode == Smallest);
      var h, w := images[i].height, images[i].width;
      if mode == Smallest {
        height := if h < height then h else height;
        width := if w < width then w else width;
      } else {
        height := if h > height then h else height;
        width := if w > width then w else width;
      }
    }
    assert images[..|images|] == images;
  }

  /** `resize`: a scan for the per-axis target, then a list of the same length in
      which every image has the target shape. Returns the list and the size in
      (width, height) order. */
  method Resize<P>(images: seq<Image<P>>, mode: string, resample: (Image<P>, nat, nat) -> P)
    returns (resized: seq<Image<P>>, size: (nat, nat))
    requires |images| > 0
    ensures size == (TargetWidth(images, mode), TargetHeight(images, mode))
    ensures |resized| == |images|
    ensures forall i :: 0 <= i < |images| ==>
      HasShape(resized[i], size.1, size.0) && resized[i].layout == images[i].layout
    ensures forall i :: 0 <= i < |images| && HasShape(images[i], size.1, size.0) ==> resized[i] == images[i]
    ensures forall i :: 0 <= i < |images| && !HasShape(images[i], size.1, size.0) ==>
      resized[i].pixels == resample(images[i], size.1, size.0)
    ensures resized == Normalize(images, mode, resample)
  {
    var height, width := ScanTarget(images, mode);
    resized := [];
    for i := 0 to |images|
      invariant |resized| == i
      invariant forall j :: 0 <= j < i ==> resized[j] == Fit(images[j], height, width, resample)
    {
      var img;
      if !HasShape(images[i], height, width) {
        img := Image(height, width, images[i].layout, resample(images[i], height, width));
      } else {
        img := images[i];
      }
      resized := resized + [img];
    }
    size := (width, height);
    FitsAreNormalize(images, mode, resample, resized);
  }
}

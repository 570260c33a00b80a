/**
 * `SamWrapper` (sam_wrapper.py) and the `Prompt` record it consumes
 * (io_utils.py). With a loaded SAM predictor the mask comes from the model,
 * which is a parameter here; without one, `predict` synthesises a mask from
 * the prompt: the box rectangle is filled with 1 and a disc of radius 5 is
 * stamped at every positively labelled point.
 */
module Sam {
  import opened Optional
  import opened Raster

  /** A point prompt; numpy gives float coordinates, read back with `int(...)`. */
  datatype Point = Point(x: real, y: real)

  /** A box prompt x0, y0, x1, y1: columns [x0, x1) and rows [y0, y1) as Python slices. */
  datatype Box = Box(x0: int, y0: int, x1: int, y1: int)

  /** `Prompt(points=None, labels=None, box=None)` */
  datatype Prompt = Prompt(points: Option<seq<Point>>, labels: Option<seq<int>>, box: Option<Box>)

  /** `Prompt()` with every field left at its default. */
  const EmptyPrompt := Prompt(None, None, None)

  /** The radius passed to `cv2.circle`. */
  const RADIUS := 5

  /** Python's `int(v)` on a float: truncation toward zero. */
  function Trunc(v: real): (n: int)
    ensures 0.0 <= v ==> 0 <= n && n as real <= v < n as real + 1.0
    ensures v < 0.0 ==> n <= 0 && n as real - 1.0 < v <= n as real
  {
    if 0.0 <= v then v.Floor else -((-v).Floor)
  }

  /** Pixel (r, c) lies in the filled disc of radius 5 around column cx, row cy. */
  predicate InDisc(r: int, c: int, cx: int, cy: int) {
    (c - cx) * (c - cx) + (r - cy) * (r - cy) <= RADIUS * RADIUS
  }

  /** `cv2.circle(m, (cx, cy), 5, 1, -1)` on a copy: the in-bounds disc pixels become 1. */
  function Disc(m: Mask, cx: int, cy: int): (n: Mask)
    ensures SameShape(n, m)
  {
    seq(|m|, r requires 0 <= r < |m| =>
      seq(|m[r]|, c requires 0 <= c < |m[r]| => if InDisc(r, c, cx, cy) then 1 else m[r][c]))
  }

  /** The number of pairs `zip(points, labels)` yields. */
  function ZipLength<S, T>(xs: seq<S>, ys: seq<T>): (n: nat)
    ensures n <= |xs| && n <= |ys| && (n == |xs| || n == |ys|)
  {
    if |xs| <= |ys| then |xs| else |ys|
  }

  /** The mask after the first n iterations of the stamping loop. */
  function Stamps(m: Mask, points: seq<Point>, labels: seq<int>, n: nat): Mask
    requires n <= |points| && n <= |labels|
  {
    if n == 0 then m
    else
      var prev := Stamps(m, points, labels, n - 1);
      if labels[n - 1] == 1 then Disc(prev, Trunc(points[n - 1].x), Trunc(points[n - 1].y)) else prev
  }

  /** Some of the first n points is labelled 1 and has (r, c) in its disc. */
  ghost predicate NearPositive(points: seq<Point>, labels: seq<int>, n: nat, r: int, c: int)
    requires n <= |points| && n <= |labels|
  {
    exists i :: 0 <= i < n && labels[i] == 1 && InDisc(r, c, Trunc(points[i].x), Trunc(points[i].y))
  }

  /** Stamping sets exactly the pixels near a positive point to 1 and leaves the rest. */
  lemma {:induction false} StampsSetNearPositive(m: Mask, points: seq<Point>, labels: seq<int>, n: nat)
    requires n <= |points| && n <= |labels|
    ensures SameShape(Stamps(m, points, labels, n), m)
    ensures forall r, c :: InBounds(m, r, c) ==>
      Stamps(m, points, labels, n)[r][c] == if NearPositive(points, labels, n, r, c) then 1 else m[r][c]
  {
    if n > 0 {
      StampsSetNearPositive(m, points, labels, n - 1);
      var prev := Stamps(m, points, labels, n - 1);
      forall r, c | InBounds(m, r, c)
        ensures Stamps(m, points, labels, n)[r][c] == if NearPositive(points, labels, n, r, c) then 1 else m[r][c]
      {
        if NearPositive(points, labels, n - 1, r, c) {
          var i :| 0 <= i < n - 1 && labels[i] == 1 && InDisc(r, c, Trunc(points[i].x), Trunc(points[i].y));
          assert NearPositive(points, labels, n, r, c);
        } else if labels[n - 1] == 1 && InDisc(r, c, Trunc(points[n - 1].x), Trunc(points[n - 1].y)) {
          assert NearPositive(points, labels, n, r, c);
        } else {
          assert !NearPositive(points, labels, n, r, c) by {
            forall i | 0 <= i < n && labels[i] == 1
              ensures !InDisc(r, c, Trunc(points[i].x), Trunc(points[i].y))
            {
              if i < n - 1 {
                assert !(0 <= i < n - 1 && labels[i] == 1 && InDisc(r, c, Trunc(points[i].x), Trunc(points[i].y)));
              }
            }
          }
        }
      }
    }
  }

  /** `mask[y0:y1, x0:x1] = 1` on an H×W zero mask, or the zero mask without a box. */
  function BoxFill(h: nat, w: nat, box: Option<Box>): Mask {
    match box
    case None => Zeros(h, w)
    case Some(b) => SliceAssign(Zeros(h, w), b.y0, b.y1, b.x0, b.x1, 1)
  }

  /** (r, c) lies in the box as numpy slices it out of an H×W raster. */
  predicate InBoxSlice(box: Option<Box>, r: int, c: int, h: nat, w: nat) {
    box.Some? && InSlice(r, box.value.y0, box.value.y1, h) && InSlice(c, box.value.x0, box.value.x1, w)
  }

  /** What the fallback branch of `predict` returns for an H×W image. */
  function FallbackMask(h: nat, w: nat, p: Prompt): Mask {
    var boxed := BoxFill(h, w, p.box);
    if p.points.Some? && p.labels.Some? then
      Stamps(boxed, p.points.value, p.labels.value, ZipLength(p.points.value, p.labels.value))
    else boxed
  }

  /** The fallback mask is H×W and 0/1; a pixel is 1 exactly when it lies in the box slice
      or, when both points and labels are given, in the disc of a point labelled 1. */
  lemma {:induction false} FallbackMaskPixels(h: nat, w: nat, p: Prompt)
    ensures HasShape(FallbackMask(h, w, p), h, w) && IsBinary(FallbackMask(h, w, p))
    ensures forall r, c :: 0 <= r < h && 0 <= c < w ==>
      (FallbackMask(h, w, p)[r][c] == 1 <==>
        InBoxSlice(p.box, r, c, h, w) ||
        (p.points.Some? && p.labels.Some? &&
         NearPositive(p.points.value, p.labels.value, ZipLength(p.points.value, p.labels.value), r, c)))
  {
    var boxed := BoxFill(h, w, p.box);
    assert HasShape(boxed, h, w) && IsBinary(boxed);
    assert forall r, c :: 0 <= r < h && 0 <= c < w ==> (boxed[r][c] == 1 <==> InBoxSlice(p.box, r, c, h, w));
    if p.points.Some? && p.labels.Some? {
      StampsSetNearPositive(boxed, p.points.value, p.labels.value, ZipLength(p.points.value, p.labels.value));
    }
  }

  /** `Prompt()` gives the all-zero H×W mask. */
  lemma {:induction false} EmptyPromptGivesZeros(h: nat, w: nat)
    ensures FallbackMask(h, w, EmptyPrompt) == Zeros(h, w)
    ensures IsEmpty(FallbackMask(h, w, EmptyPrompt))
  {
    FallbackMaskPixels(h, w, EmptyPrompt);
    BinaryExt(FallbackMask(h, w, EmptyPrompt), Zeros(h, w));
  }

  /** A box inside the image and no stamped points give exactly the rectangle
      rows [y0, y1) × columns [x0, x1). */
  lemma {:induction false} BoxOnlyFillsRectangle(h: nat, w: nat, p: Prompt)
    requires p.box.Some? && (p.points.None? || p.labels.None?)
    requires 0 <= p.box.value.x0 <= p.box.value.x1 <= w && 0 <= p.box.value.y0 <= p.box.value.y1 <= h
    ensures HasShape(FallbackMask(h, w, p), h, w)
    ensures forall r, c :: 0 <= r < h && 0 <= c < w ==>
      FallbackMask(h, w, p)[r][c] ==
        if p.box.value.y0 <= r < p.box.value.y1 && p.box.value.x0 <= c < p.box.value.x1 then 1 else 0
  {
    FallbackMaskPixels(h, w, p);
    var b := p.box.value;
    forall r, c | 0 <= r < h && 0 <= c < w
      ensures InBoxSlice(p.box, r, c, h, w) <==> b.y0 <= r < b.y1 && b.x0 <= c < b.x1
    {
      InSliceNonNegative(r, b.y0, b.y1, h);
      InSliceNonNegative(c, b.x0, b.x1, w);
    }
  }

  /** Points whose label is not 1 change nothing: dropping every point gives the same mask. */
  lemma {:induction false} NonPositivePointsIgnored(h: nat, w: nat, p: Prompt)
    requires p.points.Some? && p.labels.Some?
    requires forall i :: 0 <= i < |p.labels.value| ==> p.labels.value[i] != 1
    ensures FallbackMask(h, w, p) == FallbackMask(h, w, p.(points := None))
  {
    FallbackMaskPixels(h, w, p);
    FallbackMaskPixels(h, w, p.(points := None));
    BinaryExt(FallbackMask(h, w, p), FallbackMask(h, w, p.(points := None)));
  }

  /** Stamping only adds pixels: the box slice is still all 1, and so is every in-bounds
      pixel of a positive point's disc, among them the point itself. */
  lemma {:induction false} StampingKeepsBox(h: nat, w: nat, p: Prompt, i: nat, r: int, c: int)
    requires 0 <= r < h && 0 <= c < w
    requires InBoxSlice(p.box, r, c, h, w) ||
      (p.points.Some? && p.labels.Some? && i < |p.points.value| && i < |p.labels.value| &&
       p.labels.value[i] == 1 && InDisc(r, c, Trunc(p.points.value[i].x), Trunc(p.points.value[i].y)))
    ensures HasShape(FallbackMask(h, w, p), h, w) && FallbackMask(h, w, p)[r][c] == 1
  {
    FallbackMaskPixels(h, w, p);
    if !InBoxSlice(p.box, r, c, h, w) {
      assert NearPositive(p.points.value, p.labels.value, ZipLength(p.points.value, p.labels.value), r, c);
    }
  }

  // ---------------------------------------------------------------------------
  // the wrapper object

  /** `cv2.circle(a, (cx, cy), 5, 1, -1)`, in place. */
  method StampDisc(a: array2<U8>, cx: int, cy: int)
    modifies a
    ensures GridOf(a) == Disc(old(GridOf(a)), cx, cy)
  {
    var h, w := a.Length0, a.Length1;
    var r := 0;
    while r < h
      invariant 0 <= r <= h
      invariant forall i, j :: 0 <= i < h && 0 <= j < w ==>
        a[i, j] == if i < r && InDisc(i, j, cx, cy) then 1 else old(a[i, j])
    {
      var c := 0;
      while c < w
        invariant 0 <= c <= w
        invariant forall i, j :: 0 <= i < h && 0 <= j < w ==>
          a[i, j] == if (i < r || (i == r && j < c)) && InDisc(i, j, cx, cy) then 1 else old(a[i, j])
      {
        if InDisc(r, c, cx, cy) {
          a[r, c] := 1;
        }
        c := c + 1;
      }
      r := r + 1;
    }
    ghost var want := Disc(old(GridOf(a)), cx, cy);
    forall i | 0 <= i < h
      ensures GridOf(a)[i] == want[i]
    {
      assert forall j :: 0 <= j < w ==> GridOf(a)[i][j] == want[i][j];
    }
  }

  class SamWrapper {
    /** `self.use_sam` */
    var useSam: bool
    /** `self.predictor is not None` */
    var predictorLoaded: bool
    /** `self.image` */
    var image: Option<Image>

    /** `SamWrapper(model_type, checkpoint)`. `samAvailable` is whether `segment_anything`
        imported; `loads` is whether building the model and predictor raised nothing. */
    constructor(samAvailable: bool, checkpoint: Option<string>, loads: bool)
      ensures useSam == (samAvailable && checkpoint.Some? && loads)
      ensures predictorLoaded == useSam
      ensures image == None
    {
      if samAvailable && checkpoint.Some? {
        if loads {
          predictorLoaded := true;
          useSam := true;
        } else {
          predictorLoaded := false;
          useSam := false;
        }
      } else {
        predictorLoaded := false;
        useSam := false;
      }
      image := None;
    }

    /** `set_image(image)`; handing the image to the predictor is not modelled. */
    method SetImage(img: Image)
      modifies this
      ensures image == Some(img)
      ensures useSam == old(useSam) && predictorLoaded == old(predictorLoaded)
    {
      image := Some(img);
    }

    /** `predict(prompt)`. `modelMask` stands for `masks[0]` of the predictor's answer; the
        fallback reads the image shape, so it needs `set_image` to have been called. */
    method Predict(prompt: Prompt, modelMask: Mask) returns (mask: Mask)
      requires (useSam && predictorLoaded) || image.Some?
      ensures useSam && predictorLoaded ==> mask == modelMask
      ensures !(useSam && predictorLoaded) ==>
        mask == FallbackMask(|image.value|, Width(image.value), prompt)
    {
      if useSam && predictorLoaded {
        return modelMask;
      }
      var h, w := |image.value|, Width(image.value);
      var a := NewRaster(Zeros(h, w), h, w);
      if prompt.box.Some? {
        var b := prompt.box.value;
        AssignSlice(a, b.y0, b.y1, b.x0, b.x1, 1);
      }
      assert GridOf(a) == BoxFill(h, w, prompt.box);
      if prompt.points.Some? && prompt.labels.Some? {
        var points, labels := prompt.points.value, prompt.labels.value;
        var n := ZipLength(points, labels);
        var i := 0;
        while i < n
          invariant 0 <= i <= n
          invariant GridOf(a) == Stamps(BoxFill(h, w, prompt.box), points, labels, i)
        {
          if labels[i] == 1 {
            StampDisc(a, Trunc(points[i].x), Trunc(points[i].y));
          }
          i := i + 1;
        }
      }
      mask := GridOf(a);
    }
  }
}

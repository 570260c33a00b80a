/**
 * Compositing (visualize.py): the colour overlay, which blends each part's
 * colour into the pixels its mask covers, one part after another, and the
 * semantic label map, in which each part in a given order paints its
 * 1-based position over the pixels its mask covers, the last one winning.
 */
module Visualize {
  import opened Optional
  import opened Raster

  /** `PART_COLORS.get(part, (255, 255, 255))`, in B, G, R order. */
  function PartColor(part: string): (col: Bgr)
    ensures part !in {"neck", "eyes", "mouth", "hair", "ears"} ==> col == Bgr(255, 255, 255)
  {
    if part == "neck" then Bgr(255, 0, 255)
    else if part == "eyes" then Bgr(0, 255, 0)
    else if part == "mouth" then Bgr(0, 0, 255)
    else if part == "hair" then Bgr(255, 0, 0)
    else if part == "ears" then Bgr(0, 255, 255)
    else Bgr(255, 255, 255)
  }

  /** Distinct parts get distinct colours, none of them the default white. */
  lemma PartColorsDistinct(a: string, b: string)
    requires a in {"neck", "eyes", "mouth", "hair", "ears"} && b in {"neck", "eyes", "mouth", "hair", "ears"}
    ensures PartColor(a) != Bgr(255, 255, 255)
    ensures a != b ==> PartColor(a) != PartColor(b)
  {
  }

  /** `(0.5 * a + 0.5 * c).astype(np.uint8)` for one channel: the halved sum, rounded down
      (exact in double precision for 0..255, and `astype` truncates). */
  function Half(a: U8, c: U8): (v: U8)
    ensures 2 * v <= a + c <= 2 * v + 1
  {
    (a + c) / 2
  }

  /** The blend of pixel p with colour col, channel by channel. */
  function Blend(p: Bgr, col: Bgr): (q: Bgr)
    ensures 2 * q.b <= p.b + col.b <= 2 * q.b + 1
    ensures 2 * q.g <= p.g + col.g <= 2 * q.g + 1
    ensures 2 * q.r <= p.r + col.r <= 2 * q.r + 1
  {
    Bgr(Half(p.b, col.b), Half(p.g, col.g), Half(p.r, col.r))
  }

  /** Pixel p at (r, c) after the first n parts of `masks` have been blended in. */
  function OverlayPixel(p: Bgr, masks: PartMasks, n: nat, r: int, c: int): Bgr
    requires n <= |masks|
  {
    if n == 0 then p
    else
      var q := OverlayPixel(p, masks, n - 1, r, c);
      if Fg(masks[n - 1].mask, r, c) then Blend(q, PartColor(masks[n - 1].name)) else q
  }

  /** Every mask of the map has the image's H×W shape, as the boolean indexing needs. */
  ghost predicate MasksFit(masks: PartMasks, h: nat, w: nat) {
    forall i :: 0 <= i < |masks| ==> HasShape(masks[i].mask, h, w)
  }

  /** A pixel no mask covers keeps its colour. */
  lemma {:induction false} UncoveredPixelUnchanged(p: Bgr, masks: PartMasks, n: nat, r: int, c: int)
    requires n <= |masks|
    requires forall i :: 0 <= i < n ==> !Fg(masks[i].mask, r, c)
    ensures OverlayPixel(p, masks, n, r, c) == p
  {
    if n > 0 {
      UncoveredPixelUnchanged(p, masks, n - 1, r, c);
    }
  }

  /** A pixel exactly one mask covers is blended once, with that part's colour. */
  lemma {:induction false} SingleCoverBlendsOnce(p: Bgr, masks: PartMasks, n: nat, k: nat, r: int, c: int)
    requires k < n <= |masks|
    requires Fg(masks[k].mask, r, c)
    requires forall i :: 0 <= i < n && i != k ==> !Fg(masks[i].mask, r, c)
    ensures OverlayPixel(p, masks, n, r, c) == Blend(p, PartColor(masks[k].name))
  {
    if n == k + 1 {
      UncoveredPixelUnchanged(p, masks, k, r, c);
    } else {
      SingleCoverBlendsOnce(p, masks, n - 1, k, r, c);
    }
  }

  /** A pixel two masks cover is blended twice, the later part last. */
  lemma {:induction false} DoubleCoverBlendsInOrder(p: Bgr, masks: PartMasks, j: nat, k: nat, r: int, c: int)
    requires j < k < |masks|
    requires Fg(masks[j].mask, r, c) && Fg(masks[k].mask, r, c)
    requires forall i :: 0 <= i < |masks| && i != j && i != k ==> !Fg(masks[i].mask, r, c)
    ensures OverlayPixel(p, masks, |masks|, r, c) ==
      Blend(Blend(p, PartColor(masks[j].name)), PartColor(masks[k].name))
  {
    SingleCoverBlendsOnce(p, masks, k, j, r, c);
    LaterUncoveredKeep(p, masks, k + 1, |masks|, r, c);
  }

  /** Parts from m on that do not cover (r, c) leave its colour as it was after m parts. */
  lemma {:induction false} LaterUncoveredKeep(p: Bgr, masks: PartMasks, m: nat, n: nat, r: int, c: int)
    requires m <= n <= |masks|
    requires forall i :: m <= i < n ==> !Fg(masks[i].mask, r, c)
    ensures OverlayPixel(p, masks, n, r, c) == OverlayPixel(p, masks, m, r, c)
  {
    if m < n {
      LaterUncoveredKeep(p, masks, m, n - 1, r, c);
    }
  }

  /** `overlay_masks(image, masks)`: a copy of the image with every part blended in, in the
      order of the map; the input image is a value and stays as it was. */
  method OverlayMasks(image: Image, masks: PartMasks) returns (overlay: Image)
    requires HasShape(image, |image|, Width(image))
    requires MasksFit(masks, |image|, Width(image))
    ensures HasShape(overlay, |image|, Width(image))
    ensures forall r, c :: InBounds(image, r, c) ==>
      overlay[r][c] == OverlayPixel(image[r][c], masks, |masks|, r, c)
  {
    var h, w := |image|, Width(image);
    var a := NewRaster(image, h, w);
    for k := 0 to |masks|
      invariant forall i, j :: 0 <= i < h && 0 <= j < w ==> a[i, j] == OverlayPixel(image[i][j], masks, k, i, j)
    {
      var m := masks[k].mask;
      var col := PartColor(masks[k].name);
      for r := 0 to h
        invariant forall i, j :: 0 <= i < h && 0 <= j < w ==>
          a[i, j] == OverlayPixel(image[i][j], masks, if i < r then k + 1 else k, i, j)
      {
        for c := 0 to w
          invariant forall i, j :: 0 <= i < h && 0 <= j < w ==>
            a[i, j] == OverlayPixel(image[i][j], masks, if i < r || (i == r && j < c) then k + 1 else k, i, j)
        {
          if m[r][c] > 0 {
            a[r, c] := Blend(a[r, c], col);
          }
        }
      }
    }
    overlay := GridOf(a);
  }

  // ---------------------------------------------------------------------------
  // semantic map

  /** The map holds a mask under `name` and that mask is nonzero at (r, c). */
  ghost predicate Covers(masks: PartMasks, name: string, r: int, c: int) {
    Lookup(masks, name).Some? && Fg(Lookup(masks, name).value, r, c)
  }

  /** The label at (r, c) after the first n names of `order` have been painted. */
  function SemanticLabel(masks: PartMasks, order: seq<string>, n: nat, r: int, c: int): (lab: nat)
    requires n <= |order|
    ensures lab <= n
  {
    if n == 0 then 0
    else
      match Lookup(masks, order[n - 1])
      case Some(m) => if Fg(m, r, c) then n else SemanticLabel(masks, order, n - 1, r, c)
      case None => SemanticLabel(masks, order, n - 1, r, c)
  }

  /** Last writer wins: the label is 0 exactly when no name of `order` covers the pixel, and
      otherwise it is the largest 1-based position whose name covers it. Names missing from
      the map never show up. */
  lemma {:induction false} LabelIsLastCover(masks: PartMasks, order: seq<string>, n: nat, r: int, c: int)
    requires n <= |order|
    ensures SemanticLabel(masks, order, n, r, c) == 0 <==> forall i :: 0 <= i < n ==> !Covers(masks, order[i], r, c)
    ensures var lab := SemanticLabel(masks, order, n, r, c);
      lab > 0 ==>
        Covers(masks, order[lab - 1], r, c) &&
        forall j :: lab <= j < n ==> !Covers(masks, order[j], r, c)
    ensures forall i :: 0 <= i < n && Lookup(masks, order[i]).None? ==> SemanticLabel(masks, order, n, r, c) != i + 1
  {
    if n > 0 {
      LabelIsLastCover(masks, order, n - 1, r, c);
    }
  }

  /** Every mask in the map has the H×W shape of the first one. */
  ghost predicate ShapedLikeFirst(masks: PartMasks) {
    |masks| > 0 && MasksFit(masks, |masks[0].mask|, Width(masks[0].mask))
  }

  /** `build_semantic_map(masks, order)`: an H×W label map, H×W taken from the first mask.
      Labels are stored as uint8, so the order holds fewer than 256 names. */
  method BuildSemanticMap(masks: PartMasks, order: seq<string>) returns (sem: Mask)
    requires ShapedLikeFirst(masks)
    requires |order| < 256
    ensures HasShape(sem, |masks[0].mask|, Width(masks[0].mask))
    ensures forall r, c :: 0 <= r < |sem| && 0 <= c < Width(sem) ==>
      sem[r][c] == SemanticLabel(masks, order, |order|, r, c)
  {
    var h, w := |masks[0].mask|, Width(masks[0].mask);
    var a := NewRaster(Zeros(h, w), h, w);
    for k := 0 to |order|
      invariant forall i, j :: 0 <= i < h && 0 <= j < w ==> a[i, j] == SemanticLabel(masks, order, k, i, j)
    {
      var found := Lookup(masks, order[k]);
      if found.Some? {
        var m := found.value;
        assert HasShape(m, h, w);
        for r := 0 to h
          invariant forall i, j :: 0 <= i < h && 0 <= j < w ==>
            a[i, j] == SemanticLabel(masks, order, if i < r then k + 1 else k, i, j)
        {
          for c := 0 to w
            invariant forall i, j :: 0 <= i < h && 0 <= j < w ==>
              a[i, j] == SemanticLabel(masks, order, if i < r || (i == r && j < c) then k + 1 else k, i, j)
          {
            if m[r][c] > 0 {
              a[r, c] := k + 1;
            }
          }
        }
      }
    }
    sem := GridOf(a);
  }
}

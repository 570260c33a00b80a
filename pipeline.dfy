/**
 * The body of `run_pipeline` (segment_anime_face.py) without its file reads
 * and writes: every part of PARTS defaults to an all-zero mask and is
 * cleaned, the overlay and the semantic map are built from the cleaned
 * parts in PARTS order, and each part gets its area and inclusive bounding
 * box. The part-mask map is an input here.
 */
module Pipeline {
  import opened Optional
  import opened Raster
  import opened Postprocess
  import opened Heuristics
  import Visualize
  import Sam
  import Detector

  /** `clean_mask(masks.get(name, np.zeros(image.shape[:2], dtype=np.uint8)))` */
  function FinishedPart(masks: PartMasks, name: string, h: nat, w: nat): Mask {
    CleanMask(Lookup(masks, name).GetOr(Zeros(h, w)))
  }

  /** `processed` once its loop is done: each name of PARTS, in order, with its finished mask. */
  function Finished(masks: PartMasks, h: nat, w: nat): (processed: PartMasks)
    ensures Names(processed) == PARTS
  {
    seq(|PARTS|, i requires 0 <= i < |PARTS| => Entry(PARTS[i], FinishedPart(masks, PARTS[i], h, w)))
  }

  /** The first loop of `run_pipeline`, filling `processed` entry by entry. */
  method FinishParts(masks: PartMasks, h: nat, w: nat) returns (processed: PartMasks)
    ensures processed == Finished(masks, h, w)
  {
    processed := [];
    for i := 0 to |PARTS|
      invariant processed == Finished(masks, h, w)[..i]
    {
      var m := Lookup(masks, PARTS[i]).GetOr(Zeros(h, w));
      m := CleanMask(m);
      processed := processed + [Entry(PARTS[i], m)];
    }
  }

  /** The names of PARTS are pairwise distinct. */
  lemma PartsDistinct()
    ensures forall i, j :: 0 <= i < j < |PARTS| ==> PARTS[i] != PARTS[j]
  {
  }

  /** Looking a name of PARTS up in the processed map finds the entry at its position. */
  lemma {:induction false} LookupFinished(masks: PartMasks, h: nat, w: nat, i: nat)
    requires i < |PARTS|
    ensures Lookup(Finished(masks, h, w), PARTS[i]) == Some(FinishedPart(masks, PARTS[i], h, w))
  {
    PartsDistinct();
    LookupFindsFirst(Finished(masks, h, w), i);
  }

  /** Every name of PARTS is a key of the processed map. */
  lemma FinishedHasEveryPart(masks: PartMasks, h: nat, w: nat)
    ensures forall i :: 0 <= i < |PARTS| ==> Lookup(Finished(masks, h, w), PARTS[i]).Some?
  {
    forall i | 0 <= i < |PARTS|
      ensures Lookup(Finished(masks, h, w), PARTS[i]).Some?
    {
      LookupFinished(masks, h, w, i);
    }
  }

  /** With input masks of the image's H×W shape, every processed part is H×W and 0/1; a part
      the map lacks is the all-zero mask, and a part it has is that mask cleaned. */
  lemma {:induction false} FinishedWellFormed(masks: PartMasks, h: nat, w: nat)
    requires Visualize.MasksFit(masks, h, w)
    ensures Visualize.MasksFit(Finished(masks, h, w), h, w)
    ensures forall i :: 0 <= i < |PARTS| ==> IsBinary(Finished(masks, h, w)[i].mask)
    ensures forall i :: 0 <= i < |PARTS| && Lookup(masks, PARTS[i]).None? ==>
      Finished(masks, h, w)[i].mask == Zeros(h, w)
    ensures forall i :: 0 <= i < |PARTS| && Lookup(masks, PARTS[i]).Some? ==>
      Finished(masks, h, w)[i].mask == CleanMask(Lookup(masks, PARTS[i]).value)
  {
    var processed := Finished(masks, h, w);
    forall i | 0 <= i < |PARTS|
      ensures HasShape(processed[i].mask, h, w) && IsBinary(processed[i].mask)
      ensures Lookup(masks, PARTS[i]).None? ==> processed[i].mask == Zeros(h, w)
    {
      var found := Lookup(masks, PARTS[i]);
      if found.Some? {
        var k :| 0 <= k < |masks| && masks[k] == Entry(PARTS[i], found.value);
        assert HasShape(found.value, h, w);
      } else {
        CleanEmpty(Zeros(h, w));
      }
    }
  }

  // ---------------------------------------------------------------------------
  // metadata

  /** `{"area": ..., "bbox": [x0, y0, x1, y1]}` for one part. */
  datatype PartMeta = PartMeta(area: nat, bbox: Extent)

  /** `meta[name]` */
  datatype MetaEntry = MetaEntry(name: string, meta: PartMeta)

  /** The area and bbox of one processed mask: `int(m.sum())` and the inclusive extremes of
      `np.where(m > 0)`, or [0, 0, 0, 0] when there are none. */
  function PartMetadata(m: Mask): PartMeta {
    PartMeta(Sum(m), match Bounds(m) case None => Extent(0, 0, 0, 0) case Some(e) => e)
  }

  /** `meta` once its loop is done. */
  function MetadataOf(processed: PartMasks): (meta: seq<MetaEntry>)
    requires forall i :: 0 <= i < |PARTS| ==> Lookup(processed, PARTS[i]).Some?
    ensures |meta| == |PARTS| && forall i :: 0 <= i < |PARTS| ==> meta[i].name == PARTS[i]
  {
    seq(|PARTS|, i requires 0 <= i < |PARTS| => MetaEntry(PARTS[i], PartMetadata(Lookup(processed, PARTS[i]).value)))
  }

  /** The second loop of `run_pipeline`, filling `meta` entry by entry. */
  method Metadata(processed: PartMasks) returns (meta: seq<MetaEntry>)
    requires forall i :: 0 <= i < |PARTS| ==> Lookup(processed, PARTS[i]).Some?
    ensures meta == MetadataOf(processed)
  {
    meta := [];
    for i := 0 to |PARTS|
      invariant meta == MetadataOf(processed)[..i]
    {
      var m := Lookup(processed, PARTS[i]).value;
      var area := Sum(m);
      var bbox := Extent(0, 0, 0, 0);
      var found := Bounds(m);
      if found.Some? {
        bbox := found.value;
      }
      meta := meta + [MetaEntry(PARTS[i], PartMeta(area, bbox))];
    }
  }

  /** On a 0/1 mask the area counts the nonzero pixels; a mask without any has area 0 and
      bbox [0, 0, 0, 0]. */
  lemma {:induction false} AreaCountsPixels(m: Mask)
    requires IsBinary(m)
    ensures PartMetadata(m).area == |FgSet(m)|
    ensures IsEmpty(m) ==> PartMetadata(m).area == 0 && PartMetadata(m).bbox == Extent(0, 0, 0, 0)
  {
    SumCountsForeground(m);
    if IsEmpty(m) {
      assert FgSet(m) == {} by {
        forall p | p in FgSet(m) ensures false {
          assert Fg(m, p.0, p.1);
        }
      }
    }
  }

  /** A mask with a nonzero pixel gets the tight inclusive bbox: x0 <= x1, y0 <= y1, every
      nonzero pixel (c, r) has x0 <= c <= x1 and y0 <= r <= y1, and each side passes through
      a nonzero pixel. */
  lemma {:induction false} BBoxIsTight(m: Mask)
    requires !IsEmpty(m)
    ensures var e := PartMetadata(m).bbox;
      e.x0 <= e.x1 && e.y0 <= e.y1 &&
      (forall r, c :: Fg(m, r, c) ==> e.y0 <= r <= e.y1 && e.x0 <= c <= e.x1) &&
      RowHasFg(m, e.y0) && RowHasFg(m, e.y1) && ColHasFg(m, e.x0) && ColHasFg(m, e.x1)
  {
    var e := Bounds(m).value;
    assert Touches(e, m, 0);
    var j0 :| Fg(m, e.y0, j0);
    var j1 :| Fg(m, e.y1, j1);
    var i0 :| 0 <= i0 && Fg(m, i0, e.x0);
    var i1 :| 0 <= i1 && Fg(m, i1, e.x1);
    assert RowHasFg(m, e.y0) && RowHasFg(m, e.y1) && ColHasFg(m, e.x0) && ColHasFg(m, e.x1);
  }

  /** For a cleaned mask on an image of at least 2×2 pixels, bbox [0, 0, 0, 0] means exactly
      that the mask is empty: a nonempty cleaned mask spans two rows and two columns. */
  lemma {:induction false} SentinelMeansEmpty(m: Mask, h: nat, w: nat)
    requires HasShape(m, h, w) && 2 <= h && 2 <= w
    ensures PartMetadata(CleanMask(m)).bbox == Extent(0, 0, 0, 0) <==> IsEmpty(CleanMask(m))
  {
    if !IsEmpty(CleanMask(m)) {
      CleanedSpansTwoByTwo(m, h, w);
    }
  }

  /** On a 1×1 image the sentinel is ambiguous: the one-pixel mask survives cleaning and its
      bbox is also [0, 0, 0, 0]. */
  lemma OnePixelLooksLikeSentinel()
    ensures CleanMask([[1]]) == [[1]]
    ensures !IsEmpty([[1]]) && PartMetadata([[1]]).bbox == Extent(0, 0, 0, 0)
  {
    var m: Mask := [[1]];
    CleanFull(m);
    assert IsBinary(CleanMask(m));
    BinaryExt(CleanMask(m), m);
    assert Fg(m, 0, 0);
    var e := Bounds(m).value;
    assert Encloses(e, m, 0) && Touches(e, m, 0);
    var j :| Fg(m, e.y0, j);
    var j' :| Fg(m, e.y1, j');
    var i :| 0 <= i && Fg(m, i, e.x0);
    var i' :| 0 <= i' && Fg(m, i', e.x1);
  }

  /** The metadata bbox of a mask is the detector's exclusive box with x1 and y1 less one. */
  lemma BBoxIsDetectorBoxLessOne(m: Mask)
    requires !IsEmpty(m)
    ensures var e := PartMetadata(m).bbox;
      Detector.ExclusiveBox(m) == Some(Sam.Box(e.x0, e.y0, e.x1 + 1, e.y1 + 1))
  {
  }

  /** The semantic map of the processed parts uses the PARTS order (neck = 1 ... ears = 5):
      a pixel is 0 exactly when no processed part covers it, and label i + 1 means part i
      covers it and no later part does. */
  lemma {:induction false} SemanticLabelsFollowParts(masks: PartMasks, h: nat, w: nat, r: int, c: int)
    ensures var processed := Finished(masks, h, w);
      var lab := Visualize.SemanticLabel(processed, PARTS, |PARTS|, r, c);
      lab <= 5 &&
      (lab == 0 <==> forall i :: 0 <= i < |PARTS| ==> !Fg(processed[i].mask, r, c)) &&
      (lab > 0 ==> Fg(processed[lab - 1].mask, r, c) &&
                   forall j :: lab <= j < |PARTS| ==> !Fg(processed[j].mask, r, c))
  {
    var processed := Finished(masks, h, w);
    forall i | 0 <= i < |PARTS|
      ensures Visualize.Covers(processed, PARTS[i], r, c) <==> Fg(processed[i].mask, r, c)
    {
      LookupFinished(masks, h, w, i);
    }
    Visualize.LabelIsLastCover(processed, PARTS, |PARTS|, r, c);
  }

  /** Cleaning the carved hair and mouth masks keeps them apart. Away from the image border
      neither band edge moves; where the hair line is the last row or the mouth line is row 1,
      the band on the far side is a single row, which the opening erases. */
  lemma {:induction false} CleanedHairAndMouthDisjoint(dark: Mask, red: Mask, f: Rect)
    requires HasShape(dark, |dark|, Width(dark)) && SameShape(red, dark)
    requires 0 <= f.y && 0 <= f.h
    ensures forall r, c :: !(Fg(CleanMask(HairCarved(dark, f)), r, c) && Fg(CleanMask(MouthCarved(red, f)), r, c))
  {
    var h := |dark|;
    var hair, mouth := HairCarved(dark, f), MouthCarved(red, f);
    var hb, mt := HairBottom(f), MouthTop(f);
    assert HasShape(red, |red|, Width(red));
    HairAndMouthDisjoint(dark, red, f);
    HairIsDarkAboveLine(dark, f);
    MouthIsRedBelowLine(red, f);
    if hb != h - 1 && mt != 1 {
      CleanKeepsEmptyFromInnerRow(hair, hb);
      CleanKeepsEmptyBeforeInnerRow(mouth, mt);
    } else if hb <= 0 {
      assert IsEmpty(hair);
      CleanEmpty(hair);
    } else if h <= mt {
      assert IsEmpty(mouth);
      CleanEmpty(mouth);
    } else if hb == h - 1 {
      OneRowCleansAway(mouth, h - 1);
    } else {
      OneRowCleansAway(hair, 0);
    }
  }

  /** The carved map holds the hair and mouth masks under their names. */
  lemma LookupCarvedHairAndMouth(skin: Mask, white: Mask, red: Mask, dark: Mask, f: Rect, h: nat, w: nat)
    requires HasShape(skin, h, w)
    ensures Lookup(CarveParts(skin, white, red, dark, f, h, w), "hair") == Some(HairCarved(dark, f))
    ensures Lookup(CarveParts(skin, white, red, dark, f, h, w), "mouth") == Some(MouthCarved(red, f))
  {
    var d := CarveParts(skin, white, red, dark, f, h, w);
    LookupFindsFirst(d, 3);
    LookupFindsFirst(d, 2);
  }

  /** The same, for the processed map built from carved parts. */
  lemma {:induction false} FinishedCarvedHairAndMouthDisjoint(skin: Mask, white: Mask, red: Mask, dark: Mask, f: Rect, h: nat, w: nat)
    requires HasShape(skin, h, w) && HasShape(dark, h, w) && HasShape(red, h, w) && Width(dark) == w
    requires 0 <= f.y && 0 <= f.h
    ensures var processed := Finished(CarveParts(skin, white, red, dark, f, h, w), h, w);
      forall r, c :: !(Fg(processed[3].mask, r, c) && Fg(processed[2].mask, r, c))
  {
    LookupCarvedHairAndMouth(skin, white, red, dark, f, h, w);
    CleanedHairAndMouthDisjoint(dark, red, f);
  }

  /** After the final clean, the hair and mouth parts that `auto_segment` carves share no
      pixel. */
  lemma {:induction false} FinishedHairAndMouthDisjoint(img: Image)
    requires IsImage(img) && HasFace(img)
    ensures var processed := Finished(HeuristicMasks(img), |img|, Width(img));
      forall r, c :: !(Fg(processed[3].mask, r, c) && Fg(processed[2].mask, r, c))
  {
    var skin, white, red, dark := Skin(img), White(img), Red(img), Dark(img);
    ShapeOfImage(skin, img);
    ShapeOfImage(dark, img);
    ShapeOfImage(red, img);
    FinishedCarvedHairAndMouthDisjoint(skin, white, red, dark, Face(img), |img|, Width(img));
  }

  // ---------------------------------------------------------------------------
  // run_pipeline

  /** The processed map is shaped like its first part, which has the image's H×W shape. */
  lemma {:induction false} FinishedShapedLikeFirst(masks: PartMasks, h: nat, w: nat)
    requires Visualize.MasksFit(masks, h, w)
    ensures Visualize.ShapedLikeFirst(Finished(masks, h, w))
    ensures h > 0 ==> |Finished(masks, h, w)[0].mask| == h && Width(Finished(masks, h, w)[0].mask) == w
  {
    FinishedWellFormed(masks, h, w);
    var first := Finished(masks, h, w)[0].mask;
    assert HasShape(first, h, w);
    assert h > 0 ==> |first| == h && Width(first) == w;
  }

  /** `run_pipeline` on an H×W image whose part masks `masks` holds: the processed parts,
      the overlay, the semantic map in PARTS order and the metadata. */
  method RunPipeline(image: Image, masks: PartMasks)
      returns (processed: PartMasks, overlay: Image, sem: Mask, meta: seq<MetaEntry>)
    requires HasShape(image, |image|, Width(image))
    requires Visualize.MasksFit(masks, |image|, Width(image))
    ensures processed == Finished(masks, |image|, Width(image))
    ensures HasShape(overlay, |image|, Width(image))
    ensures forall r, c :: InBounds(image, r, c) ==>
      overlay[r][c] == Visualize.OverlayPixel(image[r][c], processed, |PARTS|, r, c)
    ensures forall r, c :: InBounds(image, r, c) ==>
      InBounds(sem, r, c) && sem[r][c] == Visualize.SemanticLabel(processed, PARTS, |PARTS|, r, c)
    ensures meta == MetadataOf(processed)
  {
    var h, w := |image|, Width(image);
    processed := FinishParts(masks, h, w);
    FinishedWellFormed(masks, h, w);
    overlay := Visualize.OverlayMasks(image, processed);
    FinishedShapedLikeFirst(masks, h, w);
    sem := Visualize.BuildSemanticMap(processed, PARTS);
    FinishedHasEveryPart(masks, h, w);
    meta := Metadata(processed);
  }
}

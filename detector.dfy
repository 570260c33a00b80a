/**
 * `GroundingDINO` (grounding_dino_wrapper.py). With a loaded model the boxes
 * come from the model, whose float boxes are a parameter here and are
 * truncated to integers; without one, `detect` looks the lower-cased text up
 * in a fixed label table and returns the exclusive bounding box of that
 * part's mask, taken from a part-mask map given as input.
 */
module Detector {
  import opened Optional
  import opened Raster
  import Sam

  /** Python's `str.lower()` on one character, for the ASCII letters. */
  function LowerChar(ch: char): (lc: char)
    ensures 'A' <= ch <= 'Z' ==> lc as int == ch as int + 32
    ensures !('A' <= ch <= 'Z') ==> lc == ch
    ensures !('A' <= lc <= 'Z')
  {
    if 'A' <= ch <= 'Z' then (ch as int + 32) as char else ch
  }

  /** `text.lower()` */
  function Lower(s: string): (t: string)
    ensures |t| == |s| && forall i :: 0 <= i < |s| ==> t[i] == LowerChar(s[i])
  {
    seq(|s|, i requires 0 <= i < |s| => LowerChar(s[i]))
  }

  /** Lower-casing twice is lower-casing once. */
  lemma LowerIdempotent(s: string)
    ensures Lower(Lower(s)) == Lower(s)
  {
    assert forall i :: 0 <= i < |s| ==> Lower(Lower(s))[i] == Lower(s)[i];
  }

  /** The label table `mapping.get(label)`. */
  function LabelPart(key: string): (part: Option<string>)
    ensures part.Some? <==> key in {"eye", "eyes", "mouth", "hair", "ear", "ears", "neck"}
    ensures part.Some? ==> part.value in {"neck", "eyes", "mouth", "hair", "ears"}
    ensures part.Some? ==> part.value == key || part.value == key + "s"
  {
    if key == "eye" || key == "eyes" then Some("eyes")
    else if key == "mouth" then Some("mouth")
    else if key == "hair" then Some("hair")
    else if key == "ear" || key == "ears" then Some("ears")
    else if key == "neck" then Some("neck")
    else None
  }

  /** The exclusive box (x, y, x + w, y + h) of `cv2.boundingRect(cv2.findNonZero(m))`,
      or nothing when m has no nonzero pixel. */
  function ExclusiveBox(m: Mask): Option<Sam.Box> {
    match BoundingRect(m)
    case None => None
    case Some(b) => Some(Sam.Box(b.x, b.y, b.x + b.w, b.y + b.h))
  }

  /** The fallback branch of `detect(image, text_prompt)`, with the part masks as input. */
  function FallbackBoxes(masks: PartMasks, text: string): seq<Sam.Box> {
    match LabelPart(Lower(text))
    case None => []
    case Some(part) =>
      match Lookup(masks, part)
      case None => []
      case Some(m) =>
        match ExclusiveBox(m)
        case None => []
        case Some(b) => [b]
  }

  /** The fallback ignores letter case: any spelling gives what its lower-case form gives. */
  lemma FallbackIgnoresCase(masks: PartMasks, text: string)
    ensures FallbackBoxes(masks, text) == FallbackBoxes(masks, Lower(text))
  {
    LowerIdempotent(text);
  }

  /** "EYE", "Eye" and "eye" all select the eye mask. */
  lemma UpperCaseEyeIsEyes()
    ensures LabelPart(Lower("EYE")) == Some("eyes")
    ensures LabelPart(Lower("Eye")) == Some("eyes")
  {
    assert Lower("EYE") == "eye";
    assert Lower("Eye") == "eye";
  }

  /** The fallback returns at most one box, and none for a label outside the table, a part
      missing from the map, or a part whose mask has no nonzero pixel. */
  lemma {:induction false} FallbackAtMostOneBox(masks: PartMasks, text: string)
    ensures |FallbackBoxes(masks, text)| <= 1
    ensures |FallbackBoxes(masks, text)| == 1 <==>
      LabelPart(Lower(text)).Some? &&
      Lookup(masks, LabelPart(Lower(text)).value).Some? &&
      !IsEmpty(Lookup(masks, LabelPart(Lower(text)).value).value)
  {
  }

  /** The fallback box is the tight exclusive box of the part's nonzero pixels: x0 < x1 and
      y0 < y1, every nonzero pixel (c, r) has x0 <= c < x1 and y0 <= r < y1, and each of the
      four edges touches a nonzero pixel. */
  lemma {:induction false} FallbackBoxIsTight(masks: PartMasks, text: string)
    requires |FallbackBoxes(masks, text)| == 1
    ensures LabelPart(Lower(text)).Some? && Lookup(masks, LabelPart(Lower(text)).value).Some?
    ensures var m, b := Lookup(masks, LabelPart(Lower(text)).value).value, FallbackBoxes(masks, text)[0];
      0 <= b.x0 < b.x1 && 0 <= b.y0 < b.y1 &&
      (forall r, c :: Fg(m, r, c) ==> b.y0 <= r < b.y1 && b.x0 <= c < b.x1) &&
      ColHasFg(m, b.x0) && ColHasFg(m, b.x1 - 1) && RowHasFg(m, b.y0) && RowHasFg(m, b.y1 - 1)
  {
  }

  /** Feeding the fallback box to the SAM fallback as a box prompt gives a mask that covers
      every nonzero pixel of the part's mask. */
  lemma {:induction false} SamCoversDetectedPart(masks: PartMasks, text: string, h: nat, w: nat)
    requires |FallbackBoxes(masks, text)| == 1
    requires LabelPart(Lower(text)).Some? && Lookup(masks, LabelPart(Lower(text)).value).Some?
    requires HasShape(Lookup(masks, LabelPart(Lower(text)).value).value, h, w)
    ensures var m, p := Lookup(masks, LabelPart(Lower(text)).value).value,
        Sam.Prompt(None, None, Some(FallbackBoxes(masks, text)[0]));
      HasShape(Sam.FallbackMask(h, w, p), h, w) &&
      forall r, c :: Fg(m, r, c) ==> Sam.FallbackMask(h, w, p)[r][c] == 1
  {
    var m := Lookup(masks, LabelPart(Lower(text)).value).value;
    var b := FallbackBoxes(masks, text)[0];
    var p := Sam.Prompt(None, None, Some(b));
    FallbackBoxIsTight(masks, text);
    Sam.FallbackMaskPixels(h, w, p);
    forall r, c | Fg(m, r, c)
      ensures Sam.FallbackMask(h, w, p)[r][c] == 1
    {
      InSliceNonNegative(r, b.y0, b.y1, h);
      InSliceNonNegative(c, b.x0, b.x1, w);
      Sam.StampingKeepsBox(h, w, p, 0, r, c);
    }
  }

  /** A float box as the model returns it. */
  datatype RealBox = RealBox(x0: real, y0: real, x1: real, y1: real)

  /** `box.astype(int)`: each coordinate truncated toward zero. */
  function TruncBox(b: RealBox): Sam.Box {
    Sam.Box(Sam.Trunc(b.x0), Sam.Trunc(b.y0), Sam.Trunc(b.x1), Sam.Trunc(b.y1))
  }

  /** `v` is truthy: present and not the empty string. */
  predicate Truthy(v: Option<string>) {
    v.Some? && |v.value| > 0
  }

  class GroundingDINO {
    /** `self.use_dino` */
    var useDino: bool
    /** `self.model is not None` */
    var modelLoaded: bool

    /** `GroundingDINO(config_path, checkpoint)`. `dinoAvailable` is whether `groundingdino`
        imported; `loads` is whether building the model raised nothing. */
    constructor(dinoAvailable: bool, configPath: Option<string>, checkpoint: Option<string>, loads: bool)
      ensures useDino == (dinoAvailable && Truthy(configPath) && Truthy(checkpoint) && loads)
      ensures modelLoaded == useDino
    {
      if dinoAvailable && Truthy(configPath) && Truthy(checkpoint) {
        useDino := loads;
        modelLoaded := loads;
      } else {
        useDino := false;
        modelLoaded := false;
      }
    }

    /** `detect(image, text_prompt)`. `modelBoxes` stands for the boxes the model predicts
        for the caption; `masks` stands for the heuristic part masks of the image. */
    method Detect(masks: PartMasks, text: string, modelBoxes: seq<RealBox>) returns (boxes: seq<Sam.Box>)
      ensures useDino && modelLoaded ==>
        |boxes| == |modelBoxes| && forall i :: 0 <= i < |boxes| ==> boxes[i] == TruncBox(modelBoxes[i])
      ensures !(useDino && modelLoaded) ==> boxes == FallbackBoxes(masks, text)
    {
      if useDino && modelLoaded {
        boxes := [];
        for i := 0 to |modelBoxes|
          invariant |boxes| == i
          invariant forall k :: 0 <= k < i ==> boxes[k] == TruncBox(modelBoxes[k])
        {
          boxes := boxes + [TruncBox(modelBoxes[i])];
        }
        return;
      }
      boxes := FallbackBoxes(masks, text);
    }
  }
}

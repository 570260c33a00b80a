# SplitEverything face-part segmentation, modelled in Dafny

SplitEverything segments a synthetic anime face into five parts: neck, eyes,
mouth, hair and ears. Every step below works on integer H×W rasters.

- Colour thresholds give four base masks (skin, white, red, dark). Each is
  cleaned by a 3×3 opening and a 3×3 closing.
- The tight bounding box of the skin mask is the face frame. The five part
  masks are carved out of the base masks by zeroing row and column bands at
  fixed fractions of that frame.
- Without a SAM model, a mask is synthesised from a prompt: the box is
  filled and discs are stamped at positive points.
- Without a GroundingDINO model, a text label is mapped to a part and that
  part mask's exclusive bounding box is returned.
- Visualisation is a 50 % colour blend per part plus a last-writer-wins
  semantic label map.
- The pipeline defaults and cleans every part, then records each part's
  area and inclusive bounding box.

Module layout. Each file is one module.

- `option.dfy` (`Optional`)
- `raster.dfy` (`Raster`). Masks are `seq<seq<U8>>` and images `seq<seq<Bgr>>`.
  It holds Python slice semantics, including negative indices, bounding
  boxes, pixel sums, the insertion-ordered part map, and `array2` helpers for
  numpy's in-place writes.
- `postprocess.dfy` (`Postprocess`): `clean_mask` and `largest_cc`.
- `heuristics.dfy` (`Heuristics`): `auto_segment`.
- `sam.dfy` (`Sam`): `Prompt` and `SamWrapper`.
- `detector.dfy` (`Detector`): `GroundingDINO`.
- `visualize.dfy` (`Visualize`): overlay and semantic map.
- `pipeline.dfy` (`Pipeline`): the body of `run_pipeline`.

Stated assumptions:

- **Morphology.** OpenCV's erosion and dilation are not visible in the
  repository. With OpenCV's default border, pixels outside the image are
  ignored. On 0/1 masks, erosion keeps a pixel when every in-bounds pixel of
  its 3×3 window is set. Dilation sets a pixel when any of them is set.
  MORPH_OPEN is dilate after erode, and MORPH_CLOSE is erode after dilate.
- **Cut lines.** The cut lines `int(f * n)` for f = 0.2, 0.3, 0.55, 0.6, 0.8,
  0.15 and 0.85 are written as n/5, 3n/10, 11n/20, 3n/5, 4n/5, 3n/20 and
  17n/20. These agree for image-sized n.
- **Foreign calls become parameters.** This covers the SAM predictor's mask,
  the detector model's float boxes, the labelling from
  `cv2.connectedComponentsWithStats`, and whether an import or a model load
  succeeded.

Three places where the code does not do what one would expect of it; the model
follows the code:

- **Empty skin mask.** One would expect an image without skin pixels to give
  empty part masks. The code instead fails: `cv2.findNonZero` of an empty mask
  gives `None`, and `cv2.boundingRect(None)` raises
  (prompts_heuristics.py:32-33). `auto_segment` therefore requires a skin
  pixel (`HasFace`).
- **The bbox sentinel.** `bbox == [0,0,0,0]` looks like a marker for an empty
  mask (segment_anime_face.py:41-42), but a mask whose only pixel is (0, 0)
  gets the same bbox from segment_anime_face.py:37-40. After cleaning, this
  can happen only on a 1×1 image (`OnePixelLooksLikeSentinel`). On images of
  at least 2×2 pixels, `[0,0,0,0]` on a cleaned mask does mean empty
  (`SentinelMeansEmpty`).
- **Broken call sites.** Two calls in the code fail.
  segment_anime_face.py:17 calls `auto_segment(image, sam)`, but
  `auto_segment` takes one argument. grounding_dino_wrapper.py:13 imports
  `_heuristic_masks`, which does not exist. Both consumers are therefore
  modelled against a part-mask map given as input. `RunPipeline` and
  `GroundingDINO.Detect` take `masks`.

## Model

| member | source | states |
|---|---|---|
| `Raster.Zeros` | sam_wrapper.py:56 | the H×W zero raster: right shape, no foreground, 0/1 |
| `Raster.Binarise` | postprocess.py:16 | same shape, 0/1, and a pixel is set exactly when the input's is nonzero |
| `Raster.SliceBound` | prompts_heuristics.py:45 | a Python slice bound on an axis of length n: a nonnegative bound i becomes min(i, n); a negative bound -j with j <= n lies j before the end; a bound below -n becomes 0 |
| `Raster.SliceAssign` | prompts_heuristics.py:40 | `m[r0:r1, c0:c1] = v` on a copy keeps the shape; its pixels are pinned down by `Heuristics.ZeroRowsBeforeClears`, `Heuristics.ZeroColsClears`, `Heuristics.NeckRawIsSkinInRectangle` and `Sam.BoxOnlyFillsRectangle` |
| `Raster.NewRaster` | prompts_heuristics.py:35 | `np.zeros_like` / `.copy()`: a fresh H×W array holding exactly the given raster |
| `Raster.AssignSlice` | prompts_heuristics.py:40 | the in-place `a[r0:r1, c0:c1] = v` leaves the array equal to the slice assignment applied to its old contents |
| `Raster.Bounds` | segment_anime_face.py:36-40 | no extent exactly when the mask is empty; otherwise the extent encloses every nonzero pixel and each of its four sides passes through one |
| `Raster.BoundingRect` | prompts_heuristics.py:32-33 | `boundingRect(findNonZero(m))`: absent exactly for an empty mask; otherwise x, y >= 0, w, h > 0, every nonzero pixel lies in [x, x+w) × [y, y+h), and the first and last row and column each hold a nonzero pixel |
| `Raster.Sum` | segment_anime_face.py:35 | `m.sum()`; on a 0/1 mask it is the number of nonzero pixels (`Raster.SumCountsForeground`) |
| `Raster.SumCountsForeground` | segment_anime_face.py:35 | on a 0/1 mask, `m.sum()` is the number of nonzero pixels |
| `Raster.Lookup` | segment_anime_face.py:21 | `d.get(name)`: absent exactly when no entry has that name; otherwise it is the mask of an entry with that name |
| `Raster.LookupFindsFirst` | segment_anime_face.py:34 | `d[name]` finds a name's first entry |
| `Postprocess.Erode` | postprocess.py:18 | same shape, 0/1; a pixel is set exactly when every in-bounds pixel of its 3×3 window is set |
| `Postprocess.Dilate` | postprocess.py:19 | same shape, 0/1; a pixel is set exactly when some in-bounds pixel of its 3×3 window is set |
| `Postprocess.Open` | postprocess.py:18 | MORPH_OPEN as dilate after erode; contained in its input (`OpenShrinks`), monotone (`OpenMonotone`), idempotent (`OpenIdempotent`) |
| `Postprocess.Close` | postprocess.py:19 | MORPH_CLOSE as erode after dilate; contains its input (`CloseGrows`), monotone (`CloseMonotone`), idempotent (`CloseIdempotent`) |
| `Postprocess.CleanMask` | postprocess.py:15-20 | the cleaned mask has the input's shape and only 0/1 entries |
| `Postprocess.ErodeShrinks` | postprocess.py:18 | erosion never adds a pixel |
| `Postprocess.DilateGrows` | postprocess.py:19 | dilation never removes a pixel |
| `Postprocess.ErodeMonotone` | postprocess.py:18 | erosion preserves mask inclusion |
| `Postprocess.DilateMonotone` | postprocess.py:19 | dilation preserves mask inclusion |
| `Postprocess.OpenShrinks` | postprocess.py:18 | the opening is contained in its input |
| `Postprocess.CloseGrows` | postprocess.py:19 | the closing contains its input |
| `Postprocess.OpenMonotone` | postprocess.py:18 | opening preserves mask inclusion |
| `Postprocess.CloseMonotone` | postprocess.py:19 | closing preserves mask inclusion |
| `Postprocess.WithinAntisymmetric` | postprocess.py:16 | two 0/1 masks each contained in the other are equal |
| `Postprocess.OpenIdempotent` | postprocess.py:18 | opening twice equals opening once |
| `Postprocess.CloseIdempotent` | postprocess.py:19 | closing twice equals closing once |
| `Postprocess.CleanIdempotent` | postprocess.py:15-20 | `clean_mask(clean_mask(m)) == clean_mask(m)` |
| `Postprocess.CleanSeesOnlyForeground` | postprocess.py:16 | two masks with the same nonzero pixels clean to the same mask (255 against 1, say) |
| `Postprocess.CleanOfBinarised` | postprocess.py:16 | `clean_mask(binarise(m)) == clean_mask(m)` |
| `Postprocess.CleanEmpty` | postprocess.py:16-19 | an all-zero mask cleans to itself |
| `Postprocess.CleanFull` | postprocess.py:16-19 | a mask nonzero everywhere cleans to all ones |
| `Postprocess.CleanKeepsEmptyFromRow` | postprocess.py:19 | a mask empty from row k on is empty from row k+1 on after cleaning |
| `Postprocess.CleanKeepsEmptyBeforeRow` | postprocess.py:19 | a mask empty above row k is empty above row k-1 after cleaning |
| `Postprocess.CleanKeepsEmptyFromInnerRow` | postprocess.py:15-20 | on an H×W mask empty from row k on, with k not the last row, the cleaned mask is still empty from row k on |
| `Postprocess.CleanKeepsEmptyBeforeInnerRow` | postprocess.py:15-20 | on an H×W mask empty above row k, with k not 1, the cleaned mask is still empty above row k |
| `Postprocess.CleanCanFillBorderRow` | postprocess.py:15-20 | at the border a band edge can move: a 3×1 column with its last pixel empty and the others set cleans to one whose last pixel is set |
| `Postprocess.OneRowCleansAway` | postprocess.py:18 | on an image at least two rows tall, a mask whose nonzero pixels all lie on one row cleans to the empty mask |
| `Postprocess.CleanedSpansTwoByTwo` | postprocess.py:15-20 | on an image of at least 2×2 pixels a nonempty cleaned mask spans at least two rows and two columns |
| `Postprocess.Area` | postprocess.py:10 | `stats[l, cv2.CC_STAT_AREA]`: the number of pixels labelled l; `LargestLabel` picks the first label maximising it |
| `Postprocess.LargestLabel` | postprocess.py:10 | `1 + argmax` over the component areas: a label in 1..num-1 of greatest area, the first such |
| `Postprocess.LargestComponent` | postprocess.py:6-12 | with no foreground label (num <= 1) the mask comes back unchanged; otherwise a 0/1 mask whose pixels are exactly the chosen label's |
| `Postprocess.NoComponentsIffEmpty` | postprocess.py:7-9 | the early return happens exactly when the mask has no nonzero pixel |
| `Postprocess.LargestComponentIsComponent` | postprocess.py:10-12 | with foreground, the result is a nonempty part of the input's nonzero pixels, at least as large as every component, and closed under 8-adjacency within the foreground (a union of whole components) |
| `Heuristics.InRange` | prompts_heuristics.py:21-24 | `cv2.inRange`: same shape, values 0/255, and a pixel is set exactly when each channel lies in its inclusive range |
| `Heuristics.Skin` | prompts_heuristics.py:21-26 | the skin mask, `clean_mask(cv2.inRange(image, skin range))`; 0/1 and H×W by `Heuristics.InRange` and `Postprocess.CleanMask` |
| `Heuristics.White` | prompts_heuristics.py:22-27 | the same for the white (eye) range |
| `Heuristics.Red` | prompts_heuristics.py:23-28 | the same for the red (mouth) range |
| `Heuristics.Dark` | prompts_heuristics.py:24-29 | the same for the dark (hair) range |
| `Heuristics.Face` | prompts_heuristics.py:32-33 | the face frame of a nonempty skin mask: w_box and h_box are positive; tightness from `Raster.BoundingRect` |
| `Heuristics.ColourRangesDisjoint` | prompts_heuristics.py:21-24 | no colour lies in two of the skin, white, red and dark ranges |
| `Heuristics.BitAnd` | prompts_heuristics.py:41 | uint8 `&`: the result is at most either operand |
| `Heuristics.AndMask` | prompts_heuristics.py:41 | `neck & skin` pixel by pixel, keeping the shape; its pixels are pinned down by `Heuristics.NeckRawIsSkinInRectangle` |
| `Heuristics.NeckRaw` | prompts_heuristics.py:35-41 | the neck before its clean; `Heuristics.NeckRawIsSkinInRectangle` gives its pixels |
| `Heuristics.ZeroRowsBefore` | prompts_heuristics.py:45 | `m[:k, :] = 0` on a copy keeps the shape; pixels by `Heuristics.ZeroRowsBeforeClears` |
| `Heuristics.ZeroRowsFrom` | prompts_heuristics.py:46 | `m[k:, :] = 0` on a copy keeps the shape; pixels by `Heuristics.ZeroRowsFromClears` |
| `Heuristics.ZeroCols` | prompts_heuristics.py:57 | `m[:, lo:hi] = 0` on a copy keeps the shape; pixels by `Heuristics.ZeroColsClears` |
| `Heuristics.EyesCarved` | prompts_heuristics.py:44-46 | the eye mask; `Heuristics.EyesAreWhiteInBand` gives its pixels |
| `Heuristics.MouthCarved` | prompts_heuristics.py:48-49 | the mouth mask; `Heuristics.MouthIsRedBelowLine` gives its pixels |
| `Heuristics.HairCarved` | prompts_heuristics.py:51-52 | the hair mask; `Heuristics.HairIsDarkAboveLine` gives its pixels |
| `Heuristics.EarsRaw` | prompts_heuristics.py:54-57 | the ears before their clean; `Heuristics.EarsRawIsSkinAtSides` gives its pixels |
| `Heuristics.CarveParts` | prompts_heuristics.py:35-66 | the five carved parts from given base masks and face frame; `Heuristics.CarvedPartsWellFormed` gives names, shape and 0/1 |
| `Heuristics.HeuristicMasks` | prompts_heuristics.py:12-66 | the value `auto_segment(image)` returns; `Heuristics.HeuristicMasksWellFormed` and `Heuristics.AutoSegment` |
| `Heuristics.BitAndOnesKeeps` | prompts_heuristics.py:41 | anding with an all-ones value at least as large keeps the other operand |
| `Heuristics.BitAndFacts` | prompts_heuristics.py:40-41 | a nonzero `x & y` needs both nonzero, and `255 & y == y` |
| `Heuristics.NeckRawIsSkinInRectangle` | prompts_heuristics.py:35-41 | before its clean, the neck is exactly the skin inside rows [y+3h/5, min(H, y+h+3h/10)) × columns [x+w/5, x+4w/5) |
| `Heuristics.ZeroRowsBeforeClears` | prompts_heuristics.py:45 | `m[:k, :] = 0` zeroes exactly the rows above k and keeps the rest |
| `Heuristics.ZeroRowsFromClears` | prompts_heuristics.py:46 | `m[k:, :] = 0` zeroes exactly the rows from k down and keeps the rest |
| `Heuristics.ZeroColsClears` | prompts_heuristics.py:57 | `m[:, lo:hi] = 0` zeroes exactly the columns lo..hi-1 and keeps the rest |
| `Heuristics.EyesAreWhiteInBand` | prompts_heuristics.py:44-46 | the eye mask equals the white mask on rows [y+h/5, y+3h/5) and is zero elsewhere, with no column restriction; it stays 0/1 |
| `Heuristics.MouthIsRedBelowLine` | prompts_heuristics.py:48-49 | the mouth mask equals the red mask from row y+11h/20 down and is zero above |
| `Heuristics.HairIsDarkAboveLine` | prompts_heuristics.py:51-52 | the hair mask equals the dark mask above row y+h/5 and is zero from there down |
| `Heuristics.HairAndMouthDisjoint` | prompts_heuristics.py:48-52 | the hair line lies on or above the mouth line, so the returned hair and mouth masks share no pixel |
| `Heuristics.EarsRawIsSkinAtSides` | prompts_heuristics.py:54-57 | before its clean, the ears mask is exactly the skin in rows [y+h/5, y+4h/5) outside columns [x+3w/20, x+17w/20) |
| `Heuristics.CarvedPartsWellFormed` | prompts_heuristics.py:35-66 | the carved parts carry the names of PARTS in order, and each is H×W and 0/1 |
| `Heuristics.HeuristicMasksWellFormed` | prompts_heuristics.py:60-66 | the result of `auto_segment` has the PARTS keys in order, each mask H×W and 0/1 |
| `Heuristics.CarveNeck` | prompts_heuristics.py:35-42 | the in-place neck construction equals `CleanMask(NeckRaw(...))` |
| `Heuristics.CarveEyes` | prompts_heuristics.py:44-46 | the in-place eye carving equals `EyesCarved` |
| `Heuristics.CarveMouth` | prompts_heuristics.py:48-49 | the in-place mouth carving equals `MouthCarved` |
| `Heuristics.CarveHair` | prompts_heuristics.py:51-52 | the in-place hair carving equals `HairCarved` |
| `Heuristics.CarveEars` | prompts_heuristics.py:54-58 | the in-place ears carving equals `CleanMask(EarsRaw(...))` |
| `Heuristics.AutoSegment` | prompts_heuristics.py:12-66 | `auto_segment(image)` on an image with a skin pixel returns the five carved masks in dict order |
| `Sam.Trunc` | sam_wrapper.py:63 | `int(v)` truncates toward zero: it lies within one of v, on the side of zero |
| `Sam.Disc` | sam_wrapper.py:63 | `cv2.circle(mask, (x, y), 5, 1, -1)` on a copy keeps the shape; pixels by `Sam.StampsSetNearPositive` |
| `Sam.Stamps` | sam_wrapper.py:60-63 | the mask after the first n stamping iterations; `Sam.StampsSetNearPositive` gives its pixels |
| `Sam.BoxFill` | sam_wrapper.py:56-59 | the zero mask with the box slice set to 1; `Sam.BoxOnlyFillsRectangle` gives its pixels |
| `Sam.FallbackMask` | sam_wrapper.py:54-64 | the whole fallback branch of `predict`; `Sam.FallbackMaskPixels` gives its pixels |
| `Sam.ZipLength` | sam_wrapper.py:61 | `zip` yields as many pairs as the shorter sequence |
| `Sam.StampsSetNearPositive` | sam_wrapper.py:60-63 | stamping sets exactly the pixels within a positive point's disc to 1 and leaves every other pixel as it was |
| `Sam.FallbackMaskPixels` | sam_wrapper.py:54-64 | the fallback mask is H×W and 0/1; a pixel is 1 exactly when it lies in the box slice or, with both points and labels given, in a positive point's disc |
| `Sam.EmptyPromptGivesZeros` | sam_wrapper.py:55-64 | `Prompt()` gives the all-zero H×W mask |
| `Sam.BoxOnlyFillsRectangle` | sam_wrapper.py:56-59 | a box inside the image and no stamping give 1 exactly on rows [y0, y1) × columns [x0, x1) |
| `Sam.NonPositivePointsIgnored` | sam_wrapper.py:60-63 | points whose label is not 1 change nothing |
| `Sam.StampingKeepsBox` | sam_wrapper.py:57-63 | every pixel of the box slice, and every in-bounds pixel of a positive point's disc, is 1 in the result |
| `Sam.StampDisc` | sam_wrapper.py:63 | the in-place stamp equals the disc stamp applied to the old contents |
| `Sam.SamWrapper.constructor` | sam_wrapper.py:24-35 | `use_sam` holds exactly when SAM imported, a checkpoint was given and loading raised nothing; the predictor is present exactly then; no image yet |
| `Sam.SamWrapper.SetImage` | sam_wrapper.py:37-40 | stores the image and changes no flag |
| `Sam.SamWrapper.Predict` | sam_wrapper.py:42-64 | with a loaded predictor the result is the model's mask; otherwise, given a stored image, it is the fallback mask for the image's H×W |
| `Detector.LowerChar` | grounding_dino_wrapper.py:55 | upper-case ASCII letters move to lower case, other characters are kept, and no upper-case letter remains |
| `Detector.Lower` | grounding_dino_wrapper.py:55 | `str.lower()` character by character, length kept |
| `Detector.LowerIdempotent` | grounding_dino_wrapper.py:55 | lower-casing twice is lower-casing once |
| `Detector.LabelPart` | grounding_dino_wrapper.py:46-55 | the table knows exactly eye, eyes, mouth, hair, ear, ears and neck, maps each to one of the five parts, and the part is the key or the key plus "s" |
| `Detector.ExclusiveBox` | grounding_dino_wrapper.py:57-60 | `(x, y, x + w, y + h)` of the bounding rect, or nothing for an empty mask; tightness by `Detector.FallbackBoxIsTight` |
| `Detector.FallbackBoxes` | grounding_dino_wrapper.py:45-61 | the fallback branch of `detect`; `Detector.FallbackAtMostOneBox`, `Detector.FallbackBoxIsTight` and `Detector.FallbackIgnoresCase` |
| `Detector.TruncBox` | grounding_dino_wrapper.py:40 | `box.astype(int)`: each coordinate truncated toward zero (`Sam.Trunc`) |
| `Detector.Truthy` | grounding_dino_wrapper.py:26 | a path argument is truthy: present and non-empty; used by `Detector.GroundingDINO.constructor` |
| `Detector.FallbackIgnoresCase` | grounding_dino_wrapper.py:55-61 | the fallback gives for any text what it gives for its lower-case form |
| `Detector.UpperCaseEyeIsEyes` | grounding_dino_wrapper.py:46-55 | "EYE" and "Eye" select the eye part |
| `Detector.FallbackAtMostOneBox` | grounding_dino_wrapper.py:55-61 | at most one box, and one exactly when the label is known, the part is in the map and its mask is nonempty |
| `Detector.FallbackBoxIsTight` | grounding_dino_wrapper.py:57-60 | the box has x0 < x1 and y0 < y1, every nonzero pixel lies in [x0, x1) × [y0, y1), and each edge touches a nonzero pixel |
| `Detector.SamCoversDetectedPart` | grounding_dino_wrapper.py:59-60 | the fallback box, given to the SAM fallback as a box prompt, yields a mask covering every nonzero pixel of the part |
| `Detector.GroundingDINO.constructor` | grounding_dino_wrapper.py:24-33 | `use_dino` holds exactly when the library imported, both paths are non-empty and loading raised nothing |
| `Detector.GroundingDINO.Detect` | grounding_dino_wrapper.py:35-61 | with a model, one truncated box per model box in order; otherwise the fallback boxes |
| `Visualize.PartColor` | visualize.py:6-12 | names outside the table get (255, 255, 255) |
| `Visualize.PartColorsDistinct` | visualize.py:6-12 | the five part colours differ from each other and from the default |
| `Visualize.Half` | visualize.py:19-21 | one channel of the blend is the halved sum rounded down |
| `Visualize.Blend` | visualize.py:19-21 | each channel of a blended pixel is (old + colour) / 2 rounded down |
| `Visualize.OverlayPixel` | visualize.py:17-21 | one pixel after the first n parts are blended in; `UncoveredPixelUnchanged`, `SingleCoverBlendsOnce` and `DoubleCoverBlendsInOrder` |
| `Visualize.UncoveredPixelUnchanged` | visualize.py:16-21 | a pixel no mask covers keeps its colour |
| `Visualize.SingleCoverBlendsOnce` | visualize.py:17-21 | a pixel exactly one mask covers is blended once with that part's colour |
| `Visualize.DoubleCoverBlendsInOrder` | visualize.py:17-21 | a pixel two masks cover is blended twice, the later part last |
| `Visualize.OverlayMasks` | visualize.py:15-22 | the overlay has the image's shape, and each pixel is the image pixel with every covering part blended in, in map order |
| `Visualize.SemanticLabel` | visualize.py:27-31 | a label never exceeds the number of names painted |
| `Visualize.LabelIsLastCover` | visualize.py:27-31 | label 0 exactly when no name covers the pixel; label i > 0 means name i covers it and no later name does; missing names never appear |
| `Visualize.BuildSemanticMap` | visualize.py:25-32 | the map has the first mask's shape, and every pixel holds the last-writer-wins label |
| `Pipeline.FinishedPart` | segment_anime_face.py:21-22 | `clean_mask(masks.get(name, zeros))`; `Pipeline.FinishedWellFormed` gives shape, 0/1 and the missing-part case |
| `Pipeline.Finished` | segment_anime_face.py:19-23 | the processed map carries exactly the names of PARTS, in order |
| `Pipeline.FinishParts` | segment_anime_face.py:19-23 | the loop builds exactly that processed map |
| `Pipeline.PartsDistinct` | prompts_heuristics.py:9 | the names of PARTS are pairwise distinct |
| `Pipeline.LookupFinished` | segment_anime_face.py:34 | `processed[name]` is that part's finished mask |
| `Pipeline.FinishedHasEveryPart` | segment_anime_face.py:32-34 | every name of PARTS is a key of `processed` |
| `Pipeline.FinishedWellFormed` | segment_anime_face.py:19-23 | every processed part is H×W and 0/1; a missing part is all zero; a present part is its mask cleaned |
| `Pipeline.MetadataOf` | segment_anime_face.py:32-43 | the metadata has exactly the PARTS keys, in order |
| `Pipeline.Metadata` | segment_anime_face.py:32-43 | the loop builds exactly that metadata |
| `Pipeline.PartMetadata` | segment_anime_face.py:35-42 | one part's area and inclusive bbox; `Pipeline.AreaCountsPixels` and `Pipeline.BBoxIsTight` |
| `Pipeline.AreaCountsPixels` | segment_anime_face.py:35-42 | on a 0/1 mask the area is the number of nonzero pixels; an empty mask has area 0 and bbox [0,0,0,0] |
| `Pipeline.BBoxIsTight` | segment_anime_face.py:36-40 | a nonempty mask's bbox has x0 <= x1 and y0 <= y1, encloses every nonzero pixel inclusively, and each side touches one |
| `Pipeline.SentinelMeansEmpty` | segment_anime_face.py:36-42 | for a cleaned mask on an image of at least 2×2 pixels, bbox [0,0,0,0] holds exactly when the mask is empty |
| `Pipeline.OnePixelLooksLikeSentinel` | segment_anime_face.py:36-42 | on a 1×1 image a one-pixel mask survives cleaning and still gets bbox [0,0,0,0] |
| `Pipeline.BBoxIsDetectorBoxLessOne` | segment_anime_face.py:38-40 | the inclusive bbox is the detector's exclusive box with x1 and y1 less one |
| `Pipeline.SemanticLabelsFollowParts` | segment_anime_face.py:29 | in the semantic map of the processed parts (neck = 1 … ears = 5), 0 means no part covers the pixel, and i+1 means part i covers it and no later part does |
| `Pipeline.CleanedHairAndMouthDisjoint` | prompts_heuristics.py:48-52 | the carved hair and mouth masks, each cleaned, share no pixel, on every image shape and face frame |
| `Pipeline.FinishedHairAndMouthDisjoint` | segment_anime_face.py:19-23 | the processed hair and mouth parts from `auto_segment` share no pixel |
| `Pipeline.RunPipeline` | segment_anime_face.py:13-44 | the processed parts, the overlay of them, their semantic map in PARTS order, and their metadata, each as specified above |

## Left out

- Argument parsing and the process entry point are not modelled. This covers `main` and the unused `--auto` flag (segment_anime_face.py:47-63).
- Image and file I/O is not modelled: `cv2.imread`, `cv2.imwrite`, the `FileNotFoundError` path, `save_mask` and `save_json`. Images are inputs and results are returned values.
- The SAM and GroundingDINO models, their imports and their float thresholds (`box_threshold`, `text_threshold`) are foreign neural models. Their outputs are parameters (`modelMask`, `modelBoxes`). `model_type` only selects a foreign registry entry, and the predictor's own `set_image` is not modelled.
- `Sam.InDisc`: the exact rasterisation of `cv2.circle` is not visible in the repository. The model stamps the Euclidean disc (c-cx)² + (r-cy)² <= 25, so the lemmas about disc pixels hold for that disc.
- `Postprocess.LargestComponentIsComponent`: the labelling from `cv2.connectedComponentsWithStats` is a parameter. It is only required to be consistent with 8-adjacency. The result is therefore shown to be closed under 8-adjacency within the foreground, but not shown to be connected. The library's own label order is not modelled. `largest_cc` is never called in the repository.
- `clean_mask`'s kernel-size parameter is modelled only at its default, 3. No caller passes another value.
- `Detector.Lower`: only ASCII letters are case-folded. Python's Unicode lower-casing of other characters is not modelled.
- `Visualize.BuildSemanticMap` requires fewer than 256 names in `order`. A uint8 label past 255 is not modelled.
- `Sam.Trunc` models `int()` on finite floats. NaN and infinities are not modelled.
- The detector-then-segmenter orchestration is not modelled, because no file implements it.
- The synthetic test image is not modelled: `cv2.ellipse` and `cv2.rectangle` rasterisation and the CLI subprocess.

/**
 * The colour-threshold segmenter `auto_segment`: four colour ranges give base
 * masks, the bounding box of the cleaned skin mask gives the face frame, and
 * the part masks are carved out of the base masks by zeroing row and column
 * bands at fixed fractions of that frame.
 *
 * The source computes the cut lines as `int(f * n)` for the fractions 0.2,
 * 0.3, 0.55, 0.6, 0.8, 0.15 and 0.85. They are written here as the integer
 * quotients n/5, 3n/10, 11n/20, 3n/5, 4n/5, 3n/20 and 17n/20, which is what
 * those products truncate to for image-sized n.
 */
module Heuristics {
  import opened Optional
  import opened Raster
  import opened Postprocess

  /** `PARTS`: every part, in the order that gives the semantic labels 1..5. */
  const PARTS: seq<string> := ["neck", "eyes", "mouth", "hair", "ears"]

  // ---------------------------------------------------------------------------
  // colour thresholds

  /** Every channel of p lies in the inclusive range of the same channel of lo and hi. */
  predicate Between(p: Bgr, lo: Bgr, hi: Bgr) {
    lo.b <= p.b <= hi.b && lo.g <= p.g <= hi.g && lo.r <= p.r <= hi.r
  }

  /** `cv2.inRange(img, lo, hi)` */
  function InRange(img: Image, lo: Bgr, hi: Bgr): (m: Mask)
    ensures SameShape(m, img)
    ensures forall r, c :: InBounds(img, r, c) ==> m[r][c] == 0 || m[r][c] == 255
    ensures forall r, c :: Fg(m, r, c) <==> InBounds(img, r, c) && Between(img[r][c], lo, hi)
  {
    seq(|img|, r requires 0 <= r < |img| =>
      seq(|img[r]|, c requires 0 <= c < |img[r]| => if Between(img[r][c], lo, hi) then 255 else 0))
  }

  const SkinLo := Bgr(170, 150, 120)
  const SkinHi := Bgr(255, 220, 200)
  const WhiteLo := Bgr(240, 240, 240)
  const WhiteHi := Bgr(255, 255, 255)
  const RedLo := Bgr(0, 0, 200)
  const RedHi := Bgr(80, 80, 255)
  const DarkLo := Bgr(0, 0, 0)
  const DarkHi := Bgr(80, 80, 80)

  /** No colour falls in two of the four ranges, so the raw skin, eye, mouth and hair masks
      are pairwise disjoint. */
  lemma ColourRangesDisjoint(p: Bgr)
    ensures !(Between(p, SkinLo, SkinHi) && Between(p, WhiteLo, WhiteHi))
    ensures !(Between(p, SkinLo, SkinHi) && Between(p, RedLo, RedHi))
    ensures !(Between(p, SkinLo, SkinHi) && Between(p, DarkLo, DarkHi))
    ensures !(Between(p, WhiteLo, WhiteHi) && Between(p, RedLo, RedHi))
    ensures !(Between(p, WhiteLo, WhiteHi) && Between(p, DarkLo, DarkHi))
    ensures !(Between(p, RedLo, RedHi) && Between(p, DarkLo, DarkHi))
  {
  }

  /** The four base masks, each cleaned. */
  function Skin(img: Image): Mask { CleanMask(InRange(img, SkinLo, SkinHi)) }
  function White(img: Image): Mask { CleanMask(InRange(img, WhiteLo, WhiteHi)) }
  function Red(img: Image): Mask { CleanMask(InRange(img, RedLo, RedHi)) }
  function Dark(img: Image): Mask { CleanMask(InRange(img, DarkLo, DarkHi)) }

  /** An H×W image. */
  ghost predicate IsImage(img: Image) {
    HasShape(img, |img|, Width(img))
  }

  /** `auto_segment` needs a face: `cv2.findNonZero` of an empty skin mask gives None and
      `cv2.boundingRect(None)` raises. */
  ghost predicate HasFace(img: Image) {
    !IsEmpty(Skin(img))
  }

  /** The face frame (x, y, w_box, h_box). */
  function Face(img: Image): (f: Rect)
    requires HasFace(img)
    ensures 0 < f.w && 0 < f.h
  {
    BoundingRect(Skin(img)).value
  }

  // ---------------------------------------------------------------------------
  // cut lines, as fractions of the face frame

  function NeckTop(f: Rect): int { f.y + 3 * f.h / 5 }
  function NeckBottom(f: Rect, h: nat): int { if h < f.y + f.h + 3 * f.h / 10 then h else f.y + f.h + 3 * f.h / 10 }
  function NeckLeft(f: Rect): int { f.x + f.w / 5 }
  function NeckRight(f: Rect): int { f.x + 4 * f.w / 5 }
  function EyesTop(f: Rect): int { f.y + f.h / 5 }
  function EyesBottom(f: Rect): int { f.y + 3 * f.h / 5 }
  function MouthTop(f: Rect): int { f.y + 11 * f.h / 20 }
  function HairBottom(f: Rect): int { f.y + f.h / 5 }
  function EarsTop(f: Rect): int { f.y + f.h / 5 }
  function EarsBottom(f: Rect): int { f.y + 4 * f.h / 5 }
  function EarsGapLeft(f: Rect): int { f.x + 3 * f.w / 20 }
  function EarsGapRight(f: Rect): int { f.x + 17 * f.w / 20 }

  // ---------------------------------------------------------------------------
  // carving, as values

  /** numpy's `&` on uint8, bit by bit from the lowest. */
  function BitAnd(x: U8, y: U8): (z: U8)
    ensures z <= x && z <= y
  {
    if x == 0 || y == 0 then 0
    else 2 * BitAnd(x / 2, y / 2) + (if x % 2 == 1 && y % 2 == 1 then 1 else 0)
  }

  /** `a & b` on two masks of one shape. */
  function AndMask(a: Mask, b: Mask): (m: Mask)
    requires SameShape(a, b)
    ensures SameShape(m, a)
  {
    seq(|a|, r requires 0 <= r < |a| =>
      seq(|a[r]|, c requires 0 <= c < |a[r]| => BitAnd(a[r][c], b[r][c])))
  }

  /** The neck before its final clean: the neck rectangle filled with 255, and-ed with skin. */
  function NeckRaw(skin: Mask, f: Rect, h: nat, w: nat): Mask
    requires HasShape(skin, h, w)
  {
    AndMask(SliceAssign(Zeros(h, w), NeckTop(f), NeckBottom(f, h), NeckLeft(f), NeckRight(f), 255), skin)
  }

  /** `m[:k, :] = 0` on a copy. */
  function ZeroRowsBefore(m: Mask, k: int): (n: Mask)
    ensures SameShape(n, m)
  {
    SliceAssign(m, 0, k, 0, Width(m), 0)
  }

  /** `m[k:, :] = 0` on a copy. */
  function ZeroRowsFrom(m: Mask, k: int): (n: Mask)
    ensures SameShape(n, m)
  {
    SliceAssign(m, k, |m|, 0, Width(m), 0)
  }

  /** `m[:, lo:hi] = 0` on a copy. */
  function ZeroCols(m: Mask, lo: int, hi: int): (n: Mask)
    ensures SameShape(n, m)
  {
    SliceAssign(m, 0, |m|, lo, hi, 0)
  }

  function EyesCarved(white: Mask, f: Rect): Mask {
    ZeroRowsFrom(ZeroRowsBefore(white, EyesTop(f)), EyesBottom(f))
  }

  function MouthCarved(red: Mask, f: Rect): Mask {
    ZeroRowsBefore(red, MouthTop(f))
  }

  function HairCarved(dark: Mask, f: Rect): Mask {
    ZeroRowsFrom(dark, HairBottom(f))
  }

  /** The ears before their final clean. */
  function EarsRaw(skin: Mask, f: Rect): Mask {
    ZeroCols(ZeroRowsFrom(ZeroRowsBefore(skin, EarsTop(f)), EarsBottom(f)), EarsGapLeft(f), EarsGapRight(f))
  }

  /** The five parts carved from the base masks, in the dict order of `auto_segment`. */
  function CarveParts(skin: Mask, white: Mask, red: Mask, dark: Mask, f: Rect, h: nat, w: nat): PartMasks
    requires HasShape(skin, h, w)
  {
    [ Entry("neck", CleanMask(NeckRaw(skin, f, h, w))),
      Entry("eyes", EyesCarved(white, f)),
      Entry("mouth", MouthCarved(red, f)),
      Entry("hair", HairCarved(dark, f)),
      Entry("ears", CleanMask(EarsRaw(skin, f))) ]
  }

  /** What `auto_segment(img)` returns. */
  function HeuristicMasks(img: Image): PartMasks
    requires IsImage(img) && HasFace(img)
  {
    CarveParts(Skin(img), White(img), Red(img), Dark(img), Face(img), |img|, Width(img))
  }

  // ---------------------------------------------------------------------------
  // what the carving guarantees

  /** Every bit of x up to its highest is set (x is 2^k - 1). */
  ghost predicate AllOnes(x: nat) {
    x == 0 || (x % 2 == 1 && AllOnes(x / 2))
  }

  /** Anding with an all-ones value at least as large keeps the other operand. */
  lemma {:induction false} BitAndOnesKeeps(x: U8, y: U8)
    requires AllOnes(x) && y <= x
    ensures BitAnd(x, y) == y
  {
    if x != 0 && y != 0 {
      BitAndOnesKeeps(x / 2, y / 2);
    }
  }

  /** A nonzero `x & y` needs both operands nonzero; `255 & y` is y. */
  lemma BitAndFacts(x: U8, y: U8)
    ensures BitAnd(x, y) > 0 ==> x > 0 && y > 0
    ensures BitAnd(255, y) == y
  {
    assert AllOnes(255) by {
      assert AllOnes(0) && AllOnes(1) && AllOnes(3) && AllOnes(7) && AllOnes(15);
      assert AllOnes(31) && AllOnes(63) && AllOnes(127);
    }
    BitAndOnesKeeps(255, y);
  }

  /** The neck before its final clean is exactly the skin inside the neck rectangle:
      rows [y + 3h/5, min(H, y + h + 3h/10)) and columns [x + w/5, x + 4w/5). */
  lemma {:induction false} NeckRawIsSkinInRectangle(skin: Mask, f: Rect, h: nat, w: nat)
    requires HasShape(skin, h, w)
    requires 0 <= f.x && 0 <= f.y && 0 <= f.w && 0 <= f.h
    ensures Within(NeckRaw(skin, f, h, w), skin)
    ensures forall r, c :: Fg(NeckRaw(skin, f, h, w), r, c) <==>
      Fg(skin, r, c) && NeckTop(f) <= r < NeckBottom(f, h) && NeckLeft(f) <= c < NeckRight(f)
  {
    var rect := SliceAssign(Zeros(h, w), NeckTop(f), NeckBottom(f, h), NeckLeft(f), NeckRight(f), 255);
    forall r, c | InBounds(skin, r, c)
      ensures Fg(NeckRaw(skin, f, h, w), r, c) <==>
        Fg(skin, r, c) && NeckTop(f) <= r < NeckBottom(f, h) && NeckLeft(f) <= c < NeckRight(f)
    {
      InSliceNonNegative(r, NeckTop(f), NeckBottom(f, h), h);
      InSliceNonNegative(c, NeckLeft(f), NeckRight(f), w);
      BitAndFacts(rect[r][c], skin[r][c]);
    }
  }

  /** `m[:k, :] = 0` clears exactly the rows above k. */
  lemma ZeroRowsBeforeClears(m: Mask, k: nat)
    requires HasShape(m, |m|, Width(m))
    ensures forall r, c :: InBounds(m, r, c) ==> ZeroRowsBefore(m, k)[r][c] == if r < k then 0 else m[r][c]
  {
    forall r, c | InBounds(m, r, c)
      ensures ZeroRowsBefore(m, k)[r][c] == if r < k then 0 else m[r][c]
    {
      InSliceNonNegative(r, 0, k, |m|);
      InSliceNonNegative(c, 0, Width(m), Width(m));
    }
  }

  /** `m[k:, :] = 0` clears exactly the rows from k down. */
  lemma ZeroRowsFromClears(m: Mask, k: nat)
    requires HasShape(m, |m|, Width(m))
    ensures forall r, c :: InBounds(m, r, c) ==> ZeroRowsFrom(m, k)[r][c] == if k <= r then 0 else m[r][c]
  {
    forall r, c | InBounds(m, r, c)
      ensures ZeroRowsFrom(m, k)[r][c] == if k <= r then 0 else m[r][c]
    {
      InSliceNonNegative(r, k, |m|, |m|);
      InSliceNonNegative(c, 0, Width(m), Width(m));
    }
  }

  /** `m[:, lo:hi] = 0` clears exactly the columns between lo and hi. */
  lemma ZeroColsClears(m: Mask, lo: nat, hi: nat)
    requires HasShape(m, |m|, Width(m))
    ensures forall r, c :: InBounds(m, r, c) ==> ZeroCols(m, lo, hi)[r][c] == if lo <= c < hi then 0 else m[r][c]
  {
    forall r, c | InBounds(m, r, c)
      ensures ZeroCols(m, lo, hi)[r][c] == if lo <= c < hi then 0 else m[r][c]
    {
      InSliceNonNegative(r, 0, |m|, |m|);
      InSliceNonNegative(c, lo, hi, Width(m));
    }
  }

  /** The eye mask is the white mask restricted to the rows [y + h/5, y + 3h/5), across
      every column. */
  lemma {:induction false} EyesAreWhiteInBand(white: Mask, f: Rect)
    requires HasShape(white, |white|, Width(white))
    requires 0 <= f.y && 0 <= f.h
    ensures HasShape(EyesCarved(white, f), |white|, Width(white))
    ensures IsBinary(white) ==> IsBinary(EyesCarved(white, f))
    ensures forall r, c :: InBounds(white, r, c) ==>
      EyesCarved(white, f)[r][c] == if EyesTop(f) <= r < EyesBottom(f) then white[r][c] else 0
  {
    var upper := ZeroRowsBefore(white, EyesTop(f));
    ZeroRowsBeforeClears(white, EyesTop(f));
    ZeroRowsFromClears(upper, EyesBottom(f));
  }

  /** The mouth mask keeps the red mask from row y + 11h/20 down and nothing above. */
  lemma {:induction false} MouthIsRedBelowLine(red: Mask, f: Rect)
    requires HasShape(red, |red|, Width(red))
    requires 0 <= f.y && 0 <= f.h
    ensures HasShape(MouthCarved(red, f), |red|, Width(red))
    ensures IsBinary(red) ==> IsBinary(MouthCarved(red, f))
    ensures forall r, c :: InBounds(red, r, c) ==>
      MouthCarved(red, f)[r][c] == if MouthTop(f) <= r then red[r][c] else 0
  {
    ZeroRowsBeforeClears(red, MouthTop(f));
  }

  /** The hair mask keeps the dark mask above row y + h/5 and nothing from there down. */
  lemma {:induction false} HairIsDarkAboveLine(dark: Mask, f: Rect)
    requires HasShape(dark, |dark|, Width(dark))
    requires 0 <= f.y && 0 <= f.h
    ensures HasShape(HairCarved(dark, f), |dark|, Width(dark))
    ensures IsBinary(dark) ==> IsBinary(HairCarved(dark, f))
    ensures forall r, c :: InBounds(dark, r, c) ==>
      HairCarved(dark, f)[r][c] == if r < HairBottom(f) then dark[r][c] else 0
  {
    ZeroRowsFromClears(dark, HairBottom(f));
  }

  /** The hair line lies on or above the mouth line, so hair and mouth carved from any two
      masks of one shape share no pixel. */
  lemma {:induction false} HairAndMouthDisjoint(dark: Mask, red: Mask, f: Rect)
    requires HasShape(dark, |dark|, Width(dark)) && SameShape(red, dark)
    requires 0 <= f.y && 0 <= f.h
    ensures HairBottom(f) <= MouthTop(f)
    ensures EmptyFromRow(HairCarved(dark, f), HairBottom(f))
    ensures EmptyBeforeRow(MouthCarved(red, f), MouthTop(f))
    ensures forall r, c :: !(Fg(HairCarved(dark, f), r, c) && Fg(MouthCarved(red, f), r, c))
  {
    HairIsDarkAboveLine(dark, f);
    MouthIsRedBelowLine(red, f);
    assert f.h / 5 <= 11 * f.h / 20;
  }

  /** The ears before their final clean are exactly the skin in the rows [y + h/5, y + 4h/5)
      outside the central columns [x + 3w/20, x + 17w/20). */
  lemma {:induction false} EarsRawIsSkinAtSides(skin: Mask, f: Rect)
    requires HasShape(skin, |skin|, Width(skin))
    requires 0 <= f.x && 0 <= f.y && 0 <= f.w && 0 <= f.h
    ensures Within(EarsRaw(skin, f), skin)
    ensures forall r, c :: Fg(EarsRaw(skin, f), r, c) <==>
      Fg(skin, r, c) && EarsTop(f) <= r < EarsBottom(f) && !(EarsGapLeft(f) <= c < EarsGapRight(f))
  {
    var a := ZeroRowsBefore(skin, EarsTop(f));
    var b := ZeroRowsFrom(a, EarsBottom(f));
    ZeroRowsBeforeClears(skin, EarsTop(f));
    ZeroRowsFromClears(a, EarsBottom(f));
    ZeroColsClears(b, EarsGapLeft(f), EarsGapRight(f));
  }

  /** Five masks under the part names, in dict order, carry the names of PARTS. */
  lemma NamedInPartsOrder(neck: Mask, eyes: Mask, mouth: Mask, hair: Mask, ears: Mask)
    ensures Names([Entry("neck", neck), Entry("eyes", eyes), Entry("mouth", mouth), Entry("hair", hair), Entry("ears", ears)]) == PARTS
  {
    var d := [Entry("neck", neck), Entry("eyes", eyes), Entry("mouth", mouth), Entry("hair", hair), Entry("ears", ears)];
    assert forall i :: 0 <= i < 5 ==> Names(d)[i] == PARTS[i];
  }

  /** The five carved parts, from 0/1 base masks of one H×W shape, are each H×W and 0/1,
      under the names of PARTS in order. */
  lemma {:induction false} CarvedPartsWellFormed(skin: Mask, white: Mask, red: Mask, dark: Mask, f: Rect, h: nat, w: nat)
    requires HasShape(skin, h, w) && HasShape(white, h, w) && HasShape(red, h, w) && HasShape(dark, h, w)
    requires Width(white) == w && Width(red) == w && Width(dark) == w
    requires IsBinary(white) && IsBinary(red) && IsBinary(dark)
    requires 0 <= f.y && 0 <= f.h
    ensures Names(CarveParts(skin, white, red, dark, f, h, w)) == PARTS
    ensures forall i :: 0 <= i < 5 ==>
      HasShape(CarveParts(skin, white, red, dark, f, h, w)[i].mask, h, w) &&
      IsBinary(CarveParts(skin, white, red, dark, f, h, w)[i].mask)
  {
    var d := CarveParts(skin, white, red, dark, f, h, w);
    EyesAreWhiteInBand(white, f);
    MouthIsRedBelowLine(red, f);
    HairIsDarkAboveLine(dark, f);
    assert HasShape(NeckRaw(skin, f, h, w), h, w);
    assert HasShape(EarsRaw(skin, f), h, w);
    NamedInPartsOrder(d[0].mask, d[1].mask, d[2].mask, d[3].mask, d[4].mask);
  }

  /** Every returned mask is H×W and 0/1, under the names of PARTS in order. */
  lemma {:induction false} HeuristicMasksWellFormed(img: Image)
    requires IsImage(img) && HasFace(img)
    ensures Names(HeuristicMasks(img)) == PARTS
    ensures forall i :: 0 <= i < 5 ==>
      HasShape(HeuristicMasks(img)[i].mask, |img|, Width(img)) && IsBinary(HeuristicMasks(img)[i].mask)
  {
    var skin, white, red, dark := Skin(img), White(img), Red(img), Dark(img);
    ShapeOfImage(skin, img);
    ShapeOfImage(white, img);
    ShapeOfImage(red, img);
    ShapeOfImage(dark, img);
    CarvedPartsWellFormed(skin, white, red, dark, Face(img), |img|, Width(img));
  }

  // ---------------------------------------------------------------------------
  // auto_segment

  /** Lines 35-42: the neck rectangle in a fresh zero raster, and-ed with skin, cleaned. */
  method CarveNeck(skin: Mask, f: Rect, h: nat, w: nat) returns (neck: Mask)
    requires HasShape(skin, h, w)
    ensures neck == CleanMask(NeckRaw(skin, f, h, w))
  {
    var a := NewRaster(Zeros(h, w), h, w);
    AssignSlice(a, NeckTop(f), NeckBottom(f, h), NeckLeft(f), NeckRight(f), 255);
    neck := CleanMask(AndMask(GridOf(a), skin));
  }

  /** Lines 44-46: the rows outside the eye band zeroed in a copy of the white mask. */
  method CarveEyes(white: Mask, f: Rect, h: nat, w: nat) returns (eyes: Mask)
    requires HasShape(white, h, w) && w == Width(white)
    ensures eyes == EyesCarved(white, f)
  {
    var a := NewRaster(white, h, w);
    AssignSlice(a, 0, EyesTop(f), 0, w, 0);
    AssignSlice(a, EyesBottom(f), h, 0, w, 0);
    eyes := GridOf(a);
  }

  /** Lines 48-49: the rows above the mouth line zeroed in a copy of the red mask. */
  method CarveMouth(red: Mask, f: Rect, h: nat, w: nat) returns (mouth: Mask)
    requires HasShape(red, h, w) && w == Width(red)
    ensures mouth == MouthCarved(red, f)
  {
    var a := NewRaster(red, h, w);
    AssignSlice(a, 0, MouthTop(f), 0, w, 0);
    mouth := GridOf(a);
  }

  /** Lines 51-52: the rows below the hair line zeroed in a copy of the dark mask. */
  method CarveHair(dark: Mask, f: Rect, h: nat, w: nat) returns (hair: Mask)
    requires HasShape(dark, h, w) && w == Width(dark)
    ensures hair == HairCarved(dark, f)
  {
    var a := NewRaster(dark, h, w);
    AssignSlice(a, HairBottom(f), h, 0, w, 0);
    hair := GridOf(a);
  }

  /** Lines 54-58: the ear bands carved out of a copy of the skin mask, cleaned. */
  method CarveEars(skin: Mask, f: Rect, h: nat, w: nat) returns (ears: Mask)
    requires HasShape(skin, h, w) && w == Width(skin)
    ensures ears == CleanMask(EarsRaw(skin, f))
  {
    var a := NewRaster(skin, h, w);
    AssignSlice(a, 0, EarsTop(f), 0, w, 0);
    AssignSlice(a, EarsBottom(f), h, 0, w, 0);
    AssignSlice(a, 0, h, EarsGapLeft(f), EarsGapRight(f), 0);
    ears := CleanMask(GridOf(a));
  }

  /** A mask with the shape of an H×W image is H×W. */
  lemma ShapeOfImage(m: Mask, img: Image)
    requires IsImage(img) && SameShape(m, img)
    ensures HasShape(m, |img|, Width(img)) && Width(m) == Width(img)
  {
  }

  /** `auto_segment(img)` */
  method AutoSegment(img: Image) returns (parts: PartMasks)
    requires IsImage(img) && HasFace(img)
    ensures parts == HeuristicMasks(img)
  {
    var h, w := |img|, Width(img);
    var f := Face(img);
    ShapeOfImage(Skin(img), img);
    ShapeOfImage(White(img), img);
    ShapeOfImage(Red(img), img);
    ShapeOfImage(Dark(img), img);
    var neck := CarveNeck(Skin(img), f, h, w);
    var eyes := CarveEyes(White(img), f, h, w);
    var mouth := CarveMouth(Red(img), f, h, w);
    var hair := CarveHair(Dark(img), f, h, w);
    var ears := CarveEars(Skin(img), f, h, w);
    parts := [Entry("neck", neck), Entry("eyes", eyes), Entry("mouth", mouth),
              Entry("hair", hair), Entry("ears", ears)];
  }
}

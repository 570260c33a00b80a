/**
 * Mask cleanup: `clean_mask` (binarise, then a 3×3 opening, then a 3×3
 * closing) and `largest_cc` (keep the largest 8-connected component).
 *
 * OpenCV's morphology is outside this model. With its default border, pixels
 * outside the image are ignored: erosion takes the minimum and dilation the
 * maximum over the in-bounds part of the 3×3 window. On the 0/1 masks
 * `clean_mask` feeds them, the minimum is 1 exactly when every in-bounds
 * window pixel is set and the maximum is 1 exactly when one of them is, which
 * is how Erode and Dilate are written below. MORPH_OPEN is dilate after erode
 * and MORPH_CLOSE is erode after dilate.
 */
module Postprocess {
  import opened Optional
  import opened Raster

  /** Some in-bounds pixel of the 3×3 window centred on (r, c) is foreground. */
  predicate AnyInWindow(m: Mask, r: int, c: int) {
    exists i, j | r - 1 <= i <= r + 1 && c - 1 <= j <= c + 1 :: Fg(m, i, j)
  }

  /** Every in-bounds pixel of the 3×3 window centred on (r, c) is foreground. */
  predicate AllInWindow(m: Mask, r: int, c: int) {
    forall i, j | r - 1 <= i <= r + 1 && c - 1 <= j <= c + 1 && InBounds(m, i, j) :: m[i][j] > 0
  }

  /** `cv2.erode` with a 3×3 kernel of ones, on a 0/1 mask. */
  function Erode(m: Mask): (e: Mask)
    ensures SameShape(e, m) && IsBinary(e)
    ensures forall r, c :: Fg(e, r, c) <==> InBounds(m, r, c) && AllInWindow(m, r, c)
  {
    seq(|m|, r requires 0 <= r < |m| =>
      seq(|m[r]|, c requires 0 <= c < |m[r]| => if AllInWindow(m, r, c) then 1 else 0))
  }

  /** `cv2.dilate` with a 3×3 kernel of ones, on a 0/1 mask. */
  function Dilate(m: Mask): (d: Mask)
    ensures SameShape(d, m) && IsBinary(d)
    ensures forall r, c :: Fg(d, r, c) <==> InBounds(m, r, c) && AnyInWindow(m, r, c)
  {
    seq(|m|, r requires 0 <= r < |m| =>
      seq(|m[r]|, c requires 0 <= c < |m[r]| => if AnyInWindow(m, r, c) then 1 else 0))
  }

  /** `cv2.morphologyEx(m, cv2.MORPH_OPEN, kernel)` */
  function Open(m: Mask): Mask {
    Dilate(Erode(m))
  }

  /** `cv2.morphologyEx(m, cv2.MORPH_CLOSE, kernel)` */
  function Close(m: Mask): Mask {
    Erode(Dilate(m))
  }

  /** `clean_mask(m)` with its default kernel size 3. */
  function CleanMask(m: Mask): (r: Mask)
    ensures SameShape(r, m) && IsBinary(r)
  {
    Close(Open(Binarise(m)))
  }

  // ---------------------------------------------------------------------------
  // erosion and dilation form an adjunction on the 3×3 window

  lemma ErodeShrinks(m: Mask)
    ensures Within(Erode(m), m)
  {
    forall r, c | Fg(Erode(m), r, c) ensures Fg(m, r, c) {
      assert AllInWindow(m, r, c);
    }
  }

  lemma DilateGrows(m: Mask)
    ensures Within(m, Dilate(m))
  {
    forall r, c | Fg(m, r, c) ensures Fg(Dilate(m), r, c) {
      assert AnyInWindow(m, r, c);
    }
  }

  lemma ErodeMonotone(a: Mask, b: Mask)
    requires Within(a, b)
    ensures Within(Erode(a), Erode(b))
  {
    forall r, c | Fg(Erode(a), r, c) ensures Fg(Erode(b), r, c) {
      assert AllInWindow(a, r, c);
      forall i, j | r - 1 <= i <= r + 1 && c - 1 <= j <= c + 1 && InBounds(b, i, j)
        ensures b[i][j] > 0
      {
        assert Fg(a, i, j);
      }
    }
  }

  lemma DilateMonotone(a: Mask, b: Mask)
    requires Within(a, b)
    ensures Within(Dilate(a), Dilate(b))
  {
    forall r, c | Fg(Dilate(a), r, c) ensures Fg(Dilate(b), r, c) {
      var i, j :| r - 1 <= i <= r + 1 && c - 1 <= j <= c + 1 && Fg(a, i, j);
      assert Fg(b, i, j);
    }
  }

  /** The opening step never adds a pixel. */
  lemma OpenShrinks(m: Mask)
    ensures Within(Open(m), m)
  {
    var e := Erode(m);
    forall r, c | Fg(Open(m), r, c) ensures Fg(m, r, c) {
      var i, j :| r - 1 <= i <= r + 1 && c - 1 <= j <= c + 1 && Fg(e, i, j);
      assert AllInWindow(m, i, j);
    }
  }

  /** The closing step never removes a pixel. */
  lemma CloseGrows(m: Mask)
    ensures Within(m, Close(m))
  {
    var d := Dilate(m);
    forall r, c | Fg(m, r, c) ensures Fg(Close(m), r, c) {
      forall i, j | r - 1 <= i <= r + 1 && c - 1 <= j <= c + 1 && InBounds(d, i, j)
        ensures d[i][j] > 0
      {
        assert AnyInWindow(m, i, j);
      }
    }
  }

  lemma OpenMonotone(a: Mask, b: Mask)
    requires Within(a, b)
    ensures Within(Open(a), Open(b))
  {
    ErodeMonotone(a, b);
    DilateMonotone(Erode(a), Erode(b));
  }

  lemma CloseMonotone(a: Mask, b: Mask)
    requires Within(a, b)
    ensures Within(Close(a), Close(b))
  {
    DilateMonotone(a, b);
    ErodeMonotone(Dilate(a), Dilate(b));
  }

  /** Two 0/1 masks of one shape, each within the other, are equal. */
  lemma WithinAntisymmetric(a: Mask, b: Mask)
    requires Within(a, b) && Within(b, a) && IsBinary(a) && IsBinary(b)
    ensures a == b
  {
    BinaryExt(a, b);
  }

  /** Opening twice is opening once. */
  lemma {:induction false} OpenIdempotent(m: Mask)
    ensures Open(Open(m)) == Open(m)
  {
    var e := Erode(m);
    OpenShrinks(Open(m));
    CloseGrows(e);
    DilateMonotone(e, Close(e));
    WithinAntisymmetric(Open(Open(m)), Open(m));
  }

  /** Closing twice is closing once. */
  lemma {:induction false} CloseIdempotent(m: Mask)
    ensures Close(Close(m)) == Close(m)
  {
    var d := Dilate(m);
    CloseGrows(Close(m));
    OpenShrinks(d);
    ErodeMonotone(Open(d), d);
    WithinAntisymmetric(Close(Close(m)), Close(m));
  }

  /** Cleaning a cleaned mask changes nothing: opening then closing is an idempotent filter. */
  lemma {:induction false} CleanIdempotent(m: Mask)
    ensures CleanMask(CleanMask(m)) == CleanMask(m)
  {
    var y := Open(Binarise(m));
    var f := Close(y);
    BinariseFixesBinary(f);
    assert CleanMask(f) == Close(Open(f));
    // Close(Open(f)) is within Close(Close(y)) == f ...
    OpenShrinks(f);
    CloseMonotone(Open(f), f);
    CloseIdempotent(y);
    // ... and contains Close(Open(y)) == f.
    CloseGrows(y);
    OpenMonotone(y, f);
    OpenIdempotent(Binarise(m));
    CloseMonotone(y, Open(f));
    WithinAntisymmetric(Close(Open(f)), f);
  }

  /** The result depends only on which pixels are nonzero (255 and 1 clean alike). */
  lemma {:induction false} CleanSeesOnlyForeground(a: Mask, b: Mask)
    requires SameShape(a, b)
    requires forall r, c :: Fg(a, r, c) <==> Fg(b, r, c)
    ensures CleanMask(a) == CleanMask(b)
  {
    BinaryExt(Binarise(a), Binarise(b));
  }

  lemma {:induction false} CleanOfBinarised(m: Mask)
    ensures CleanMask(Binarise(m)) == CleanMask(m)
  {
    CleanSeesOnlyForeground(Binarise(m), m);
  }

  /** An all-zero mask cleans to itself. */
  lemma {:induction false} CleanEmpty(m: Mask)
    requires IsEmpty(m)
    ensures CleanMask(m) == m
  {
    var y := Open(Binarise(m));
    OpenShrinks(Binarise(m));
    forall r, c ensures !Fg(CleanMask(m), r, c) {
      assert !Fg(Dilate(y), r, c);
    }
    forall r, c | InBounds(m, r, c) ensures m[r][c] <= 1 {
      assert !Fg(m, r, c);
    }
    BinaryExt(CleanMask(m), m);
  }

  /** A mask whose every pixel is nonzero cleans to all ones. */
  lemma {:induction false} CleanFull(m: Mask)
    requires forall r, c :: InBounds(m, r, c) ==> m[r][c] > 0
    ensures forall r, c :: InBounds(m, r, c) ==> CleanMask(m)[r][c] == 1
  {
    var b := Binarise(m);
    var o := Open(b);
    forall r, c | InBounds(m, r, c) ensures Fg(o, r, c) {
      assert AllInWindow(b, r, c);
      assert Fg(Erode(b), r, c);
      assert AnyInWindow(Erode(b), r, c);
    }
    CloseGrows(o);
  }

  // ---------------------------------------------------------------------------
  // row bands survive cleaning up to one row

  /** No foreground pixel of m lies on a row at or below `k`. */
  ghost predicate EmptyFromRow(m: Mask, k: int) {
    forall r, c :: k <= r ==> !Fg(m, r, c)
  }

  /** No foreground pixel of m lies on a row above `k`. */
  ghost predicate EmptyBeforeRow(m: Mask, k: int) {
    forall r, c :: r < k ==> !Fg(m, r, c)
  }

  /** Closing can reach at most one row past the last foreground row. */
  lemma {:induction false} CleanKeepsEmptyFromRow(m: Mask, k: int)
    requires EmptyFromRow(m, k)
    ensures EmptyFromRow(CleanMask(m), k + 1)
  {
    var y := Open(Binarise(m));
    OpenShrinks(Binarise(m));
    forall r, c | k + 1 <= r ensures !Fg(Close(y), r, c) {
      assert !Fg(Dilate(y), r, c);
    }
  }

  /** Closing can reach at most one row before the first foreground row. */
  lemma {:induction false} CleanKeepsEmptyBeforeRow(m: Mask, k: int)
    requires EmptyBeforeRow(m, k)
    ensures EmptyBeforeRow(CleanMask(m), k - 1)
  {
    var y := Open(Binarise(m));
    OpenShrinks(Binarise(m));
    forall r, c | r < k - 1 ensures !Fg(Close(y), r, c) {
      assert !Fg(Dilate(y), r, c);
    }
  }

  /** Erosion clears the row above an empty band that starts inside the image. */
  lemma ErodeEmptyFrom(b: Mask, k: int)
    requires HasShape(b, |b|, Width(b))
    requires EmptyFromRow(b, k) && k < |b|
    ensures EmptyFromRow(Erode(b), k - 1)
  {
    forall r, c | k - 1 <= r && InBounds(b, r, c) ensures !AllInWindow(b, r, c) {
      if r < k {
        assert InBounds(b, k, c) && !Fg(b, k, c);
      } else {
        assert !Fg(b, r, c);
      }
    }
  }

  /** Erosion clears the row below an empty band that ends inside the image. */
  lemma ErodeEmptyBefore(b: Mask, k: int)
    requires HasShape(b, |b|, Width(b))
    requires EmptyBeforeRow(b, k) && 1 <= k
    ensures EmptyBeforeRow(Erode(b), k + 1)
  {
    forall r, c | r <= k && InBounds(b, r, c) ensures !AllInWindow(b, r, c) {
      if r == k {
        assert InBounds(b, k - 1, c) && !Fg(b, k - 1, c);
      } else {
        assert !Fg(b, r, c);
      }
    }
  }

  /** Dilation widens a band by at most one row downwards. */
  lemma DilateEmptyFrom(y: Mask, k: int)
    requires EmptyFromRow(y, k)
    ensures EmptyFromRow(Dilate(y), k + 1)
  {
    forall r, c | k + 1 <= r ensures !AnyInWindow(y, r, c) {
    }
  }

  /** Dilation widens a band by at most one row upwards. */
  lemma DilateEmptyBefore(y: Mask, k: int)
    requires EmptyBeforeRow(y, k)
    ensures EmptyBeforeRow(Dilate(y), k - 1)
  {
    forall r, c | r < k - 1 ensures !AnyInWindow(y, r, c) {
    }
  }

  /** Away from the bottom border the band edge does not move at all: when row k + 1 is
      still inside the image, the closing's erosion sees the empty rows below k. */
  lemma {:induction false} CleanKeepsEmptyFromInnerRow(m: Mask, k: int)
    requires HasShape(m, |m|, Width(m))
    requires EmptyFromRow(m, k) && k != |m| - 1
    ensures EmptyFromRow(CleanMask(m), k)
  {
    if k < |m| {
      var b := Binarise(m);
      var y := Open(b);
      var d := Dilate(y);
      assert EmptyFromRow(b, k);
      ErodeEmptyFrom(b, k);
      DilateEmptyFrom(Erode(b), k - 1);
      DilateEmptyFrom(y, k);
      ErodeEmptyFrom(d, k + 1);
    }
  }

  /** Away from the top border the band edge does not move at all: when row k - 2 is inside
      the image (or no row lies above k), the closing's erosion sees the empty rows above k. */
  lemma {:induction false} CleanKeepsEmptyBeforeInnerRow(m: Mask, k: int)
    requires HasShape(m, |m|, Width(m))
    requires EmptyBeforeRow(m, k) && k != 1
    ensures EmptyBeforeRow(CleanMask(m), k)
  {
    if 2 <= k {
      var b := Binarise(m);
      var y := Open(b);
      var d := Dilate(y);
      assert EmptyBeforeRow(b, k);
      ErodeEmptyBefore(b, k);
      DilateEmptyBefore(Erode(b), k + 1);
      DilateEmptyBefore(y, k);
      ErodeEmptyBefore(d, k - 1);
    }
  }

  /** At the border the edge can move: in a column of three pixels whose last one is empty,
      cleaning fills the last one. */
  lemma {:induction false} CleanCanFillBorderRow(m: Mask)
    requires HasShape(m, 3, 1) && m[0][0] > 0 && m[1][0] > 0 && m[2][0] == 0
    ensures EmptyFromRow(m, 2)
    ensures Fg(CleanMask(m), 2, 0)
  {
    var b := Binarise(m);
    var e := Erode(b);
    assert AllInWindow(b, 0, 0) by {
      forall i, j | -1 <= i <= 1 && -1 <= j <= 1 && InBounds(b, i, j) ensures b[i][j] > 0 {
        assert j == 0 && (i == 0 || i == 1);
        assert Fg(m, i, j);
      }
    }
    assert Fg(e, 0, 0);
    var y := Dilate(e);
    assert AnyInWindow(e, 1, 0);
    assert Fg(y, 1, 0);
    var d := Dilate(y);
    assert AnyInWindow(y, 1, 0) && AnyInWindow(y, 2, 0);
    assert Fg(d, 1, 0) && Fg(d, 2, 0);
    assert AllInWindow(d, 2, 0) by {
      forall i, j | 1 <= i <= 3 && -1 <= j <= 1 && InBounds(d, i, j) ensures d[i][j] > 0 {
        assert j == 0 && (i == 1 || i == 2);
      }
    }
  }

  /** On an image at least two rows tall, a mask whose foreground lies on one row is erased by
      the opening: every window reaches a second row. */
  lemma {:induction false} OneRowCleansAway(m: Mask, r0: int)
    requires HasShape(m, |m|, Width(m)) && 2 <= |m|
    requires forall r, c :: Fg(m, r, c) ==> r == r0
    ensures IsEmpty(CleanMask(m))
  {
    var b := Binarise(m);
    var e := Erode(b);
    forall r, c | InBounds(b, r, c) ensures !AllInWindow(b, r, c) {
      if r == r0 {
        var r1 := if r + 1 < |m| then r + 1 else r - 1;
        assert InBounds(b, r1, c) && !Fg(b, r1, c);
      } else {
        assert !Fg(b, r, c);
      }
    }
    assert EmptyFromRow(e, -2);
    DilateEmptyFrom(e, -2);
    DilateEmptyFrom(Dilate(e), -1);
    ErodeShrinks(Dilate(Dilate(e)));
  }

  /** Whatever survives cleaning comes from a pixel whose window survived the erosion. */
  lemma {:induction false} CleanedHasErodedPixel(m: Mask)
    requires !IsEmpty(CleanMask(m))
    ensures exists qr, qc :: Fg(Erode(Binarise(m)), qr, qc)
  {
    var y := Open(Binarise(m));
    var r0, c0 :| Fg(CleanMask(m), r0, c0);
    assert Fg(Dilate(y), r0, c0);
    var r1, c1 :| r0 - 1 <= r1 <= r0 + 1 && c0 - 1 <= c1 <= c0 + 1 && Fg(y, r1, c1);
    assert AnyInWindow(Erode(Binarise(m)), r1, c1);
  }

  /** The opening keeps the whole in-bounds window of every pixel the erosion keeps. */
  lemma OpenKeepsWindow(b: Mask, qr: int, qc: int)
    requires Fg(Erode(b), qr, qc)
    ensures forall i, j :: qr - 1 <= i <= qr + 1 && qc - 1 <= j <= qc + 1 && InBounds(b, i, j) ==>
      Fg(Open(b), i, j)
  {
    forall i, j | qr - 1 <= i <= qr + 1 && qc - 1 <= j <= qc + 1 && InBounds(b, i, j)
      ensures Fg(Open(b), i, j)
    {
      assert AnyInWindow(Erode(b), i, j);
    }
  }

  /** On an image of at least 2×2 pixels a nonempty cleaned mask spans two rows and two
      columns: opening keeps whole windows, and each window meets two rows and two columns. */
  lemma {:induction false} CleanedSpansTwoByTwo(m: Mask, h: nat, w: nat)
    requires HasShape(m, h, w) && 2 <= h && 2 <= w
    requires !IsEmpty(CleanMask(m))
    ensures Bounds(CleanMask(m)).Some?
    ensures Bounds(CleanMask(m)).value.x0 < Bounds(CleanMask(m)).value.x1
    ensures Bounds(CleanMask(m)).value.y0 < Bounds(CleanMask(m)).value.y1
  {
    var b := Binarise(m);
    var out := CleanMask(m);
    CleanedHasErodedPixel(m);
    var qr, qc :| Fg(Erode(b), qr, qc);
    OpenKeepsWindow(b, qr, qc);
    CloseGrows(Open(b));
    var r2 := if qr + 1 < h then qr + 1 else qr - 1;
    var c2 := if qc + 1 < w then qc + 1 else qc - 1;
    assert Fg(out, qr, qc) && Fg(out, r2, qc) && Fg(out, qr, c2);
    var e := Bounds(out).value;
    assert Encloses(e, out, 0);
  }

  // ---------------------------------------------------------------------------
  // largest_cc

  /** Some pixel carries label l. */
  ghost predicate LabelUsed(labels: seq<seq<int>>, l: int) {
    exists r, c :: InBounds(labels, r, c) && labels[r][c] == l
  }

  /** What the result of `cv2.connectedComponentsWithStats(m, connectivity=8)` is relied on
      for: `num` labels of which 0 is the background, each label in use, and 8-adjacent
      foreground pixels sharing a label. */
  ghost predicate IsLabelling(m: Mask, labels: seq<seq<int>>, num: int) {
    SameShape(labels, m) && 1 <= num &&
    (forall r, c :: InBounds(m, r, c) ==> 0 <= labels[r][c] < num) &&
    (forall r, c :: InBounds(m, r, c) ==> (labels[r][c] == 0 <==> m[r][c] == 0)) &&
    (forall l :: 1 <= l < num ==> LabelUsed(labels, l)) &&
    (forall r, c, i, j :: Fg(m, r, c) && Fg(m, i, j) && r - 1 <= i <= r + 1 && c - 1 <= j <= c + 1 ==>
      labels[r][c] == labels[i][j])
  }

  /** The pixels carrying label l. */
  function LabelSet(labels: seq<seq<int>>, l: int): set<(int, int)> {
    set r, c | 0 <= r < |labels| && 0 <= c < |labels[r]| && labels[r][c] == l :: (r, c)
  }

  /** `stats[l, cv2.CC_STAT_AREA]` */
  function Area(labels: seq<seq<int>>, l: int): nat {
    |LabelSet(labels, l)|
  }

  /** `1 + np.argmax(stats[1:hi, cv2.CC_STAT_AREA])`: the first label of greatest area. */
  function LargestLabel(labels: seq<seq<int>>, hi: int): (best: int)
    requires 2 <= hi
    decreases hi
    ensures 1 <= best < hi
    ensures forall l :: 1 <= l < hi ==> Area(labels, l) <= Area(labels, best)
    ensures forall l :: 1 <= l < best ==> Area(labels, l) < Area(labels, best)
  {
    if hi == 2 then 1
    else
      var b := LargestLabel(labels, hi - 1);
      if Area(labels, hi - 1) > Area(labels, b) then hi - 1 else b
  }

  /** `largest_cc(m)`, given the labelling the library computes for m. */
  function LargestComponent(m: Mask, labels: seq<seq<int>>, num: int): (out: Mask)
    requires IsLabelling(m, labels, num)
    ensures SameShape(out, m)
    ensures num <= 1 ==> out == m
    ensures 1 < num ==> IsBinary(out)
    ensures 1 < num ==> FgSet(out) == LabelSet(labels, LargestLabel(labels, num))
  {
    if num <= 1 then m
    else
      var best := LargestLabel(labels, num);
      var out: Mask := seq(|m|, r requires 0 <= r < |m| =>
        seq(|m[r]|, c requires 0 <= c < |m[r]| => if labels[r][c] == best then 1 else 0));
      assert forall p :: p in FgSet(out) <==> p in LabelSet(labels, best);
      out
  }

  /** The early return happens exactly when the mask has no foreground. */
  lemma {:induction false} NoComponentsIffEmpty(m: Mask, labels: seq<seq<int>>, num: int)
    requires IsLabelling(m, labels, num)
    ensures num <= 1 <==> IsEmpty(m)
  {
    if num <= 1 {
      forall r, c | InBounds(m, r, c) ensures m[r][c] == 0 {
        assert 0 <= labels[r][c] < num;
      }
    } else {
      assert LabelUsed(labels, 1);
      var r, c :| InBounds(labels, r, c) && labels[r][c] == 1;
      assert Fg(m, r, c);
    }
  }

  /** With foreground present, the result is a nonempty part of the input's foreground, at
      least as large as every labelled component, and closed under 8-adjacency within the
      foreground: a union of whole components. That it is one connected component rests on
      the labelling, which is a parameter here. */
  lemma {:induction false} LargestComponentIsComponent(m: Mask, labels: seq<seq<int>>, num: int)
    requires IsLabelling(m, labels, num) && 1 < num
    ensures Within(LargestComponent(m, labels, num), m)
    ensures !IsEmpty(LargestComponent(m, labels, num))
    ensures forall l :: 1 <= l < num ==> Area(labels, l) <= |FgSet(LargestComponent(m, labels, num))|
    ensures forall r, c, i, j ::
      Fg(LargestComponent(m, labels, num), r, c) && Fg(m, i, j) && r - 1 <= i <= r + 1 && c - 1 <= j <= c + 1 ==>
      Fg(LargestComponent(m, labels, num), i, j)
  {
    var out := LargestComponent(m, labels, num);
    var best := LargestLabel(labels, num);
    forall r, c | Fg(out, r, c) ensures Fg(m, r, c) {
      assert (r, c) in FgSet(out);
      assert labels[r][c] == best;
    }
    assert LabelUsed(labels, best);
    var r, c :| InBounds(labels, r, c) && labels[r][c] == best;
    assert (r, c) in FgSet(out);
    assert Fg(out, r, c);
    forall r, c, i, j | Fg(out, r, c) && Fg(m, i, j) && r - 1 <= i <= r + 1 && c - 1 <= j <= c + 1
      ensures Fg(out, i, j)
    {
      assert (r, c) in FgSet(out);
      assert Fg(m, r, c);
      assert (i, j) in LabelSet(labels, best);
    }
  }
}

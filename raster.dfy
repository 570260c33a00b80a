/**
 * Rasters shared by every component: 8-bit masks and BGR images indexed
 * [row][column], numpy's slice assignment, the bounding box of the nonzero
 * pixels, pixel counts, and the name-to-mask dictionaries passed between
 * components.
 */
module Raster {
  import opened Optional

  /** numpy's uint8. */
  type U8 = x: int | 0 <= x < 256

  /** A single-channel raster, rows first; the pipeline's masks are H×W. */
  type Mask = seq<seq<U8>>

  /** One pixel of a 3-channel 8-bit image, channels in blue-green-red order. */
  datatype Bgr = Bgr(b: U8, g: U8, r: U8)

  type Image = seq<seq<Bgr>>

  ghost predicate HasShape<T>(m: seq<seq<T>>, h: nat, w: nat) {
    |m| == h && forall r :: 0 <= r < h ==> |m[r]| == w
  }

  /** The column count of a raster (numpy keeps it for zero rows; a sequence cannot). */
  function Width<T>(m: seq<seq<T>>): nat {
    if |m| == 0 then 0 else |m[0]|
  }

  ghost predicate SameShape<S, T>(a: seq<seq<S>>, b: seq<seq<T>>) {
    |a| == |b| && forall r :: 0 <= r < |a| ==> |a[r]| == |b[r]|
  }

  predicate InBounds<T>(m: seq<seq<T>>, r: int, c: int) {
    0 <= r < |m| && 0 <= c < |m[r]|
  }

  /** (r, c) lies inside m and is nonzero there. */
  predicate Fg(m: Mask, r: int, c: int) {
    InBounds(m, r, c) && m[r][c] > 0
  }

  ghost predicate IsBinary(m: Mask) {
    forall r, c :: InBounds(m, r, c) ==> m[r][c] <= 1
  }

  ghost predicate IsEmpty(m: Mask) {
    forall r, c :: !Fg(m, r, c)
  }

  /** m and n have one shape and every foreground pixel of m is one of n. */
  ghost predicate Within(m: Mask, n: Mask) {
    SameShape(m, n) && forall r, c :: Fg(m, r, c) ==> Fg(n, r, c)
  }

  /** `np.zeros((h, w), np.uint8)` */
  function Zeros(h: nat, w: nat): (z: Mask)
    ensures HasShape(z, h, w) && IsEmpty(z) && IsBinary(z)
  {
    seq(h, _ => seq(w, _ => 0))
  }

  /** `(m > 0).astype(np.uint8)` */
  function Binarise(m: Mask): (b: Mask)
    ensures SameShape(b, m) && IsBinary(b)
    ensures forall r, c :: Fg(b, r, c) <==> Fg(m, r, c)
  {
    seq(|m|, r requires 0 <= r < |m| =>
      seq(|m[r]|, c requires 0 <= c < |m[r]| => if m[r][c] > 0 then 1 else 0))
  }

  /** Masks with one shape, both 0/1, and the same foreground are equal. */
  lemma BinaryExt(a: Mask, b: Mask)
    requires SameShape(a, b) && IsBinary(a) && IsBinary(b)
    requires forall r, c :: Fg(a, r, c) <==> Fg(b, r, c)
    ensures a == b
  {
    forall r | 0 <= r < |a|
      ensures a[r] == b[r]
    {
      forall c | 0 <= c < |a[r]|
        ensures a[r][c] == b[r][c]
      {
        assert Fg(a, r, c) <==> Fg(b, r, c);
      }
    }
  }

  lemma {:induction false} BinariseFixesBinary(m: Mask)
    requires IsBinary(m)
    ensures Binarise(m) == m
  {
    BinaryExt(Binarise(m), m);
  }

  // ---------------------------------------------------------------------------
  // numpy slicing

  /** Where Python puts a slice bound `i` on a sequence of length `n` (step 1):
      negative bounds count from the end, and both ends are clipped to [0, n]. */
  function SliceBound(i: int, n: nat): (k: nat)
    ensures k <= n
    ensures 0 <= i ==> k == if i < n then i else n
    ensures 0 - n <= i < 0 ==> k + (0 - i) == n
    ensures i < 0 - n ==> k == 0
  {
    if i < 0 then (if i + n < 0 then 0 else i + n)
    else if i > n then n
    else i
  }

  /** Index i is selected by the slice `lo:hi` of a length-n axis. */
  predicate InSlice(i: int, lo: int, hi: int, n: nat) {
    SliceBound(lo, n) <= i < SliceBound(hi, n)
  }

  /** With nonnegative bounds a slice selects exactly the in-range indices between them. */
  lemma InSliceNonNegative(i: int, lo: int, hi: int, n: nat)
    requires 0 <= lo && 0 <= hi && 0 <= i < n
    ensures InSlice(i, lo, hi, n) <==> lo <= i < hi
  {
  }

  /** `m[r0:r1, c0:c1] = v`, on a copy. */
  function SliceAssign(m: Mask, r0: int, r1: int, c0: int, c1: int, v: U8): (n: Mask)
    ensures SameShape(n, m)
  {
    seq(|m|, r requires 0 <= r < |m| =>
      seq(|m[r]|, c requires 0 <= c < |m[r]| =>
        if InSlice(r, r0, r1, |m|) && InSlice(c, c0, c1, |m[r]|) then v else m[r][c]))
  }

  // ---------------------------------------------------------------------------
  // bounding box of the nonzero pixels

  /** Inclusive bounds: columns x0..x1 and rows y0..y1. */
  datatype Extent = Extent(x0: int, y0: int, x1: int, y1: int)

  ghost predicate RowHasFg(m: Mask, r: int) {
    exists c :: Fg(m, r, c)
  }

  ghost predicate ColHasFg(m: Mask, c: int) {
    exists r :: Fg(m, r, c)
  }

  /** Every foreground pixel of m with row >= from lies inside e. */
  ghost predicate Encloses(e: Extent, m: Mask, from: int) {
    forall i, j :: from <= i && Fg(m, i, j) ==> e.y0 <= i <= e.y1 && e.x0 <= j <= e.x1
  }

  /** Each side of e passes through a foreground pixel of m with row >= from. */
  ghost predicate Touches(e: Extent, m: Mask, from: int) {
    from <= e.y0 <= e.y1 && e.x0 <= e.x1 &&
    (exists j :: Fg(m, e.y0, j)) && (exists j :: Fg(m, e.y1, j)) &&
    (exists i :: from <= i && Fg(m, i, e.x0)) && (exists i :: from <= i && Fg(m, i, e.x1))
  }

  /** First and last foreground column of row r at or after column `from`. */
  function RowSpan(m: Mask, r: nat, from: nat): (s: Option<(nat, nat)>)
    requires r < |m|
    decreases |m[r]| - from
    ensures s.None? <==> forall j :: from <= j ==> !Fg(m, r, j)
    ensures s.Some? ==> from <= s.value.0 <= s.value.1
    ensures s.Some? ==> Fg(m, r, s.value.0) && Fg(m, r, s.value.1)
    ensures s.Some? ==> forall j :: from <= j && Fg(m, r, j) ==> s.value.0 <= j <= s.value.1
  {
    if from >= |m[r]| then None
    else
      var rest := RowSpan(m, r, from + 1);
      if m[r][from] > 0 then
        assert Fg(m, r, from);
        Some((from, if rest.Some? then rest.value.1 else from))
      else rest
  }

  /** The tight bounds of the foreground pixels of m in rows >= from. */
  function ExtentFrom(m: Mask, from: nat): (e: Option<Extent>)
    requires from <= |m|
    decreases |m| - from
    ensures e.None? <==> forall i, j :: from <= i ==> !Fg(m, i, j)
    ensures e.Some? ==> Encloses(e.value, m, from) && Touches(e.value, m, from)
  {
    if from == |m| then None
    else
      var rest := ExtentFrom(m, from + 1);
      match RowSpan(m, from, 0)
      case None => rest
      case Some(span) =>
        match rest
        case None => Some(Extent(span.0, from, span.1, from))
        case Some(e) =>
          Some(Extent(if span.0 < e.x0 then span.0 else e.x0, from,
                      if span.1 > e.x1 then span.1 else e.x1, e.y1))
  }

  /** The tight bounding box of the nonzero pixels of m, None when there are none
      (the minima and maxima of `np.where(m > 0)`). */
  function Bounds(m: Mask): (e: Option<Extent>)
    ensures e.None? <==> IsEmpty(m)
    ensures e.Some? ==> Encloses(e.value, m, 0) && Touches(e.value, m, 0)
  {
    ExtentFrom(m, 0)
  }

  /** OpenCV's rectangle: top-left corner (x, y), width w and height h. */
  datatype Rect = Rect(x: int, y: int, w: int, h: int)

  /** `cv2.boundingRect(cv2.findNonZero(m))`; None where findNonZero gives None. */
  function BoundingRect(m: Mask): (b: Option<Rect>)
    ensures b.None? <==> IsEmpty(m)
    ensures b.Some? ==> 0 < b.value.w && 0 < b.value.h && 0 <= b.value.x && 0 <= b.value.y
    ensures b.Some? ==> forall r, c :: Fg(m, r, c) ==>
      b.value.x <= c < b.value.x + b.value.w && b.value.y <= r < b.value.y + b.value.h
    ensures b.Some? ==> RowHasFg(m, b.value.y) && RowHasFg(m, b.value.y + b.value.h - 1)
    ensures b.Some? ==> ColHasFg(m, b.value.x) && ColHasFg(m, b.value.x + b.value.w - 1)
  {
    match Bounds(m)
    case None => None
    case Some(e) => Some(Rect(e.x0, e.y0, e.x1 - e.x0 + 1, e.y1 - e.y0 + 1))
  }

  // ---------------------------------------------------------------------------
  // counting

  /** The foreground pixels of m as (row, column) pairs. */
  function FgSet(m: Mask): set<(int, int)> {
    set r, c | 0 <= r < |m| && 0 <= c < |m[r]| && m[r][c] > 0 :: (r, c)
  }

  function RowSum(row: seq<U8>): nat {
    if |row| == 0 then 0 else RowSum(row[..|row| - 1]) + row[|row| - 1]
  }

  /** `m.sum()` */
  function Sum(m: Mask): nat {
    if |m| == 0 then 0 else Sum(m[..|m| - 1]) + RowSum(m[|m| - 1])
  }

  function RowFgSet(m: Mask, r: int, w: nat): set<(int, int)>
    requires 0 <= r < |m| && w <= |m[r]|
  {
    set c | 0 <= c < w && m[r][c] > 0 :: (r, c)
  }

  lemma {:induction false} RowSumCounts(m: Mask, r: int, w: nat)
    requires 0 <= r < |m| && w <= |m[r]| && IsBinary(m)
    ensures RowSum(m[r][..w]) == |RowFgSet(m, r, w)|
  {
    if w > 0 {
      RowSumCounts(m, r, w - 1);
      assert m[r][..w][..w - 1] == m[r][..w - 1];
      assert m[r][..w][w - 1] == m[r][w - 1];
      if m[r][w - 1] > 0 {
        assert RowFgSet(m, r, w) == RowFgSet(m, r, w - 1) + {(r, w - 1)};
        assert (r, w - 1) !in RowFgSet(m, r, w - 1);
      } else {
        assert RowFgSet(m, r, w) == RowFgSet(m, r, w - 1);
      }
    } else {
      assert RowFgSet(m, r, w) == {};
    }
  }

  /** On a 0/1 mask the sum is the number of foreground pixels. */
  lemma {:induction false} SumCountsForeground(m: Mask)
    requires IsBinary(m)
    ensures Sum(m) == |FgSet(m)|
  {
    if |m| > 0 {
      var k := |m| - 1;
      var p := m[..k];
      assert IsBinary(p) by {
        forall r, c | InBounds(p, r, c) ensures p[r][c] <= 1 {
          assert InBounds(m, r, c);
        }
      }
      SumCountsForeground(p);
      RowSumCounts(m, k, |m[k]|);
      assert m[k][..|m[k]|] == m[k];
      assert FgSet(m) == FgSet(p) + RowFgSet(m, k, |m[k]|);
      assert FgSet(p) * RowFgSet(m, k, |m[k]|) == {};
    } else {
      assert FgSet(m) == {};
    }
  }

  // ---------------------------------------------------------------------------
  // name-to-mask dictionaries

  /** One key-value pair of a Python dict from part name to mask. */
  datatype Entry = Entry(name: string, mask: Mask)

  /** A dict from part name to mask, in insertion order (Python dicts keep it). */
  type PartMasks = seq<Entry>

  function Names(d: PartMasks): (ns: seq<string>)
    ensures |ns| == |d| && forall i :: 0 <= i < |d| ==> ns[i] == d[i].name
  {
    if |d| == 0 then [] else [d[0].name] + Names(d[1..])
  }

  /** `d.get(name)` */
  function Lookup(d: PartMasks, name: string): (o: Option<Mask>)
    ensures o.None? <==> forall i :: 0 <= i < |d| ==> d[i].name != name
    ensures o.Some? ==> exists i :: 0 <= i < |d| && d[i] == Entry(name, o.value)
  {
    if |d| == 0 then None
    else if d[0].name == name then Some(d[0].mask)
    else
      var rest := Lookup(d[1..], name);
      assert forall i :: 1 <= i < |d| ==> d[i] == d[1..][i - 1];
      rest
  }

  /** A name's first entry is the one `d[name]` finds. */
  lemma {:induction false} LookupFindsFirst(d: PartMasks, i: nat)
    requires i < |d|
    requires forall j :: 0 <= j < i ==> d[j].name != d[i].name
    ensures Lookup(d, d[i].name) == Some(d[i].mask)
  {
    if i > 0 {
      assert d[1..][i - 1] == d[i];
      LookupFindsFirst(d[1..], i - 1);
    }
  }

  // ---------------------------------------------------------------------------
  // arrays standing for numpy's mutable rasters

  function GridOf<T>(a: array2<T>): (m: seq<seq<T>>)
    reads a
    ensures HasShape(m, a.Length0, a.Length1)
    ensures forall r, c :: 0 <= r < a.Length0 && 0 <= c < a.Length1 ==> m[r][c] == a[r, c]
  {
    seq(a.Length0, r requires 0 <= r < a.Length0 reads a =>
      seq(a.Length1, c requires 0 <= c < a.Length1 reads a => a[r, c]))
  }

  /** A fresh array holding the H×W raster m (`m.copy()`, `np.zeros_like`). */
  method NewRaster<T>(m: seq<seq<T>>, h: nat, w: nat) returns (a: array2<T>)
    requires HasShape(m, h, w)
    ensures fresh(a) && a.Length0 == h && a.Length1 == w
    ensures GridOf(a) == m
  {
    a := new T[h, w]((r, c) requires 0 <= r < h && 0 <= c < w => m[r][c]);
    assert forall r :: 0 <= r < h ==> GridOf(a)[r] == m[r];
  }

  /** The slice assignment `a[r0:r1, c0:c1] = v`, in place. */
  method AssignSlice(a: array2<U8>, r0: int, r1: int, c0: int, c1: int, v: U8)
    modifies a
    ensures GridOf(a) == SliceAssign(old(GridOf(a)), r0, r1, c0, c1, v)
  {
    var h, w := a.Length0, a.Length1;
    var rlo, rhi := SliceBound(r0, h), SliceBound(r1, h);
    var clo, chi := SliceBound(c0, w), SliceBound(c1, w);
    var r := rlo;
    while r < rhi
      invariant r == rlo || rlo <= r <= rhi
      invariant forall i, j :: 0 <= i < h && 0 <= j < w ==>
        a[i, j] == if rlo <= i < r && clo <= j < chi then v else old(a[i, j])
    {
      var c := clo;
      while c < chi
        invariant c == clo || clo <= c <= chi
        invariant forall i, j :: 0 <= i < h && 0 <= j < w ==>
          a[i, j] == if (rlo <= i < r && clo <= j < chi) || (i == r && clo <= j < c) then v else old(a[i, j])
      {
        a[r, c] := v;
        c := c + 1;
      }
      r := r + 1;
    }
    ghost var want := SliceAssign(old(GridOf(a)), r0, r1, c0, c1, v);
    forall i | 0 <= i < h
      ensures GridOf(a)[i] == want[i]
    {
      assert forall j :: 0 <= j < w ==> GridOf(a)[i][j] == want[i][j];
    }
  }
}

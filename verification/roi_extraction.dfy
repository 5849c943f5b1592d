/** Region-of-interest extraction: which landmarks outline each facial region,
    the padding shared by all regions, the crop rectangle and the masked crop.
    Convex-hull rasterisation and morphological clean-up are OpenCV raster
    operations and stay abstract: a `MaskBuilder` says which pixels end up in
    the cleaned hull mask of a point set. */
module RoiExtraction {
  import opened Basics

  /** A region of the registry: its name and the landmark indices that outline
      it, in the order the registry lists them. */
  datatype RegionDef = RegionDef(name: string, indices: seq<nat>)

  const ForeheadIndices: seq<nat> := [10, 338, 297, 332, 284]
  const LeftEyeIndices: seq<nat> := [33, 133]
  const RightEyeIndices: seq<nat> := [362, 263]

  /** The fixed region registry, in iteration order. */
  const Registry: seq<RegionDef> := [
    RegionDef("forehead", ForeheadIndices),
    RegionDef("left_eye", LeftEyeIndices),
    RegionDef("right_eye", RightEyeIndices),
    RegionDef("nose", [1, 6, 197, 195, 5]),
    RegionDef("lips", [61, 291, 78, 308]),
    RegionDef("left_cheek", [50, 205, 187]),
    RegionDef("right_cheek", [280, 425, 411])
  ]

  const RegistryNames: seq<string> :=
    ["forehead", "left_eye", "right_eye", "nose", "lips", "left_cheek", "right_cheek"]

  /** The central forehead landmark the synthetic forehead point is placed above. */
  const ForeheadAnchor: nat := 10

  /** Padding used when either eye has no landmark to measure from. */
  const FallbackPadding: nat := 10

  /** A cropped, masked pixel patch. */
  type Patch = seq<seq<Pixel>>

  /** Membership in the cleaned hull mask of a point set: `inMask(pts, row,
      col)` holds when the pixel at (`row`, `col`) survives hull filling,
      morphological opening and closing. */
  type MaskBuilder = (seq<Point>, int, int) -> bool

  /** An axis-aligned rectangle with exclusive upper edges, as used for
      slicing: columns `x1..x2-1`, rows `y1..y2-1`. */
  datatype Rect = Rect(x1: int, y1: int, x2: int, y2: int)

  /** OpenCV's bounding rectangle of an integer point set: top-left corner
      and a size that counts pixels, so that `x + width` is one past the
      rightmost point. */
  datatype Box = Box(x: int, y: int, width: nat, height: nat)

  datatype Axis = X | Y

  function Coord(p: Point, a: Axis): int {
    if a == X then p.x else p.y
  }

  lemma RegistryShape()
    ensures |Registry| == |RegistryNames|
    ensures forall k :: 0 <= k < |Registry| ==> Registry[k].name == RegistryNames[k]
    ensures Distinct(RegistryNames)
  {
  }

  /** The indices of `idxs` that address a landmark of a list of length `n`,
      in registry order. */
  function Present(idxs: seq<nat>, n: nat): (r: seq<nat>)
    ensures IsSubsequence(r, idxs)
    ensures forall i :: i in r <==> i in idxs && i < n
    ensures forall k :: 0 <= k < |r| ==> r[k] < n
  {
    if idxs == [] then []
    else
      var rest := Present(idxs[1..], n);
      if idxs[0] < n then
        SubsequenceKeep(rest, idxs);
        [idxs[0]] + rest
      else
        SubsequenceSkip(rest, idxs);
        rest
  }

  /** The landmarks addressed by the indices of `idxs` that are in range,
      skipping the others. */
  function Gather(idxs: seq<nat>, lms: seq<Point>): (pts: seq<Point>)
    ensures |pts| == |Present(idxs, |lms|)|
    ensures forall k :: 0 <= k < |pts| ==> pts[k] == lms[Present(idxs, |lms|)[k]]
  {
    if idxs == [] then []
    else if idxs[0] < |lms| then [lms[idxs[0]]] + Gather(idxs[1..], lms)
    else Gather(idxs[1..], lms)
  }

  /** A region has a point exactly when one of its indices is in range. */
  lemma GatherNonEmptyIff(idxs: seq<nat>, lms: seq<Point>)
    ensures Gather(idxs, lms) != [] <==> exists i :: i in idxs && i < |lms|
  {
    var r := Present(idxs, |lms|);
    if r != [] {
      assert r[0] in r;
    }
  }

  /** The smallest coordinate of a non-empty point set along an axis. */
  function Lowest(pts: seq<Point>, a: Axis): (m: int)
    requires |pts| > 0
    ensures exists k :: 0 <= k < |pts| && Coord(pts[k], a) == m
    ensures forall k :: 0 <= k < |pts| ==> m <= Coord(pts[k], a)
  {
    if |pts| == 1 then Coord(pts[0], a)
    else
      var rest := Lowest(pts[1..], a);
      assert forall k :: 1 <= k < |pts| ==> pts[k] == pts[1..][k - 1];
      Min(Coord(pts[0], a), rest)
  }

  /** The largest coordinate of a non-empty point set along an axis. */
  function Highest(pts: seq<Point>, a: Axis): (m: int)
    requires |pts| > 0
    ensures exists k :: 0 <= k < |pts| && Coord(pts[k], a) == m
    ensures forall k :: 0 <= k < |pts| ==> Coord(pts[k], a) <= m
  {
    if |pts| == 1 then Coord(pts[0], a)
    else
      var rest := Highest(pts[1..], a);
      assert forall k :: 1 <= k < |pts| ==> pts[k] == pts[1..][k - 1];
      Max(Coord(pts[0], a), rest)
  }

  /** `cv2.boundingRect` of a non-empty point set (the hull of a point set
      has the same extreme coordinates as the set itself). */
  function BoundingRect(pts: seq<Point>): (b: Box)
    requires |pts| > 0
    ensures forall k :: 0 <= k < |pts| ==>
      b.x <= pts[k].x < b.x + b.width && b.y <= pts[k].y < b.y + b.height
    ensures exists k :: 0 <= k < |pts| && pts[k].x == b.x
    ensures exists k :: 0 <= k < |pts| && pts[k].x == b.x + b.width - 1
    ensures exists k :: 0 <= k < |pts| && pts[k].y == b.y
    ensures exists k :: 0 <= k < |pts| && pts[k].y == b.y + b.height - 1
  {
    var x := Lowest(pts, X);
    var y := Lowest(pts, Y);
    var k :| 0 <= k < |pts| && Coord(pts[k], X) == x;
    var j :| 0 <= j < |pts| && Coord(pts[j], Y) == y;
    assert x <= Highest(pts, X) && y <= Highest(pts, Y);
    Box(x, y, Highest(pts, X) - x + 1, Highest(pts, Y) - y + 1)
  }

  /** The bounding rectangle runs from the lowest to the highest coordinate
      on each axis. */
  lemma BoundingRectExtremes(pts: seq<Point>)
    requires |pts| > 0
    ensures var b := BoundingRect(pts);
      && b.x == Lowest(pts, X) && b.x + b.width == Highest(pts, X) + 1
      && b.y == Lowest(pts, Y) && b.y + b.height == Highest(pts, Y) + 1
  {
    var b := BoundingRect(pts);
    var i :| 0 <= i < |pts| && Coord(pts[i], X) == Lowest(pts, X);
    var j :| 0 <= j < |pts| && Coord(pts[j], X) == Highest(pts, X);
    var k :| 0 <= k < |pts| && Coord(pts[k], Y) == Lowest(pts, Y);
    var l :| 0 <= l < |pts| && Coord(pts[l], Y) == Highest(pts, Y);
    var i' :| 0 <= i' < |pts| && pts[i'].x == b.x;
    var j' :| 0 <= j' < |pts| && pts[j'].x == b.x + b.width - 1;
    var k' :| 0 <= k' < |pts| && pts[k'].y == b.y;
    var l' :| 0 <= l' < |pts| && pts[l'].y == b.y + b.height - 1;
    assert Coord(pts[i'], X) == pts[i'].x && Coord(pts[j'], X) == pts[j'].x;
    assert Coord(pts[k'], Y) == pts[k'].y && Coord(pts[l'], Y) == pts[l'].y;
  }

  /** `int(0.3 * span)` for a non-negative integer span. */
  function ForeheadOffset(span: nat): (offset: nat)
    ensures offset as real <= 0.3 * span as real < offset as real + 1.0
  {
    var q := (3 * span) / 10;
    assert (3 * span) as real == 10.0 * q as real + ((3 * span) % 10) as real;
    q
  }

  /** The synthetic point placed above the forehead: the anchor's column, and
      the anchor's row moved up by 30% of the forehead's vertical span,
      stopping at row 0. */
  function ForeheadTop(anchor: Point, pts: seq<Point>): (p: Point)
    requires |pts| > 0
    ensures p.x == anchor.x
    ensures p.y >= 0
    ensures anchor.y >= 0 ==> p.y <= anchor.y
    ensures p.y > 0 ==>
      var span := (BoundingRect(pts).height - 1) as real;
      (anchor.y - p.y) as real <= 0.3 * span < (anchor.y - p.y + 1) as real
    ensures anchor.y - ForeheadOffset(Highest(pts, Y) - Lowest(pts, Y)) <= 0 <==> p.y == 0
  {
    BoundingRectExtremes(pts);
    var span := Highest(pts, Y) - Lowest(pts, Y);
    Point(anchor.x, Max(anchor.y - ForeheadOffset(span), 0))
  }

  /** A worked example: an anchor at row 100 above a forehead spanning rows
      100 to 140 is moved up by `int(0.3 * 40) = 12`, to row 88. */
  lemma ForeheadTopExample(x: int, x1: int, x2: int)
    ensures ForeheadTop(Point(x, 100), [Point(x1, 100), Point(x2, 140)]) == Point(x, 88)
  {
    var pts := [Point(x1, 100), Point(x2, 140)];
    assert Highest(pts, Y) == 140 && Lowest(pts, Y) == 100;
  }

  /** When every index of a region is at least `m`, a region with any
      landmark in range has landmark `m` in range too. */
  lemma LeastIndexPresent(idxs: seq<nat>, lms: seq<Point>, m: nat)
    requires forall k :: 0 <= k < |idxs| ==> m <= idxs[k]
    requires Gather(idxs, lms) != []
    ensures m < |lms|
  {
    var r := Present(idxs, |lms|);
    assert r[0] in r;
  }

  /** The points outlining registry region `k`: its landmarks in range, and
      for the forehead one synthetic point above them. */
  function RegionPoints(k: nat, lms: seq<Point>): (pts: seq<Point>)
    requires k < |Registry|
    ensures var base := Gather(Registry[k].indices, lms);
      && |base| <= |pts| && pts[..|base|] == base
      && (pts == [] <==> base == [])
      && (Registry[k].name != "forehead" ==> pts == base)
      && (Registry[k].name == "forehead" && base != [] ==>
            |pts| == |base| + 1 && ForeheadAnchor < |lms|
            && pts[|base|] == ForeheadTop(lms[ForeheadAnchor], base))
  {
    var base := Gather(Registry[k].indices, lms);
    if Registry[k].name == "forehead" && base != [] then
      assert k == 0;
      LeastIndexPresent(Registry[k].indices, lms, ForeheadAnchor);
      base + [ForeheadTop(lms[ForeheadAnchor], base)]
    else
      base
  }

  /** `int(0.05 * iod)` when both eyes have a landmark in range, otherwise the
      fixed fallback; `iod` is the distance between the eye centroids. */
  function Padding(lms: seq<Point>, iod: real): (pad: nat)
    requires iod >= 0.0
    ensures Gather(LeftEyeIndices, lms) == [] || Gather(RightEyeIndices, lms) == [] ==>
      pad == FallbackPadding
    ensures Gather(LeftEyeIndices, lms) != [] && Gather(RightEyeIndices, lms) != [] ==>
      pad as real <= 0.05 * iod < pad as real + 1.0
  {
    if Gather(LeftEyeIndices, lms) != [] && Gather(RightEyeIndices, lms) != [] then
      (0.05 * iod).Floor
    else
      FallbackPadding
  }

  /** A wider eye distance never yields a smaller padding. */
  lemma PaddingMonotone(lms: seq<Point>, iod1: real, iod2: real)
    requires 0.0 <= iod1 <= iod2
    ensures Padding(lms, iod1) <= Padding(lms, iod2)
  {
    if Gather(LeftEyeIndices, lms) != [] && Gather(RightEyeIndices, lms) != [] {
      var p1, p2 := Padding(lms, iod1), Padding(lms, iod2);
      assert p1 as real <= 0.05 * iod2;
    }
  }

  /** The bounding rectangle of the region grown by `pad` on every side and
      clamped to an image of `h` rows and `w` columns. */
  function CropRect(pts: seq<Point>, pad: nat, h: nat, w: nat): (r: Rect)
    requires |pts| > 0
    ensures 0 <= r.x1 && 0 <= r.y1 && r.x2 <= w && r.y2 <= h
    ensures r.x1 < r.x2 <==> 0 < w && Lowest(pts, X) - pad < w && Highest(pts, X) + pad >= 0
    ensures r.y1 < r.y2 <==> 0 < h && Lowest(pts, Y) - pad < h && Highest(pts, Y) + pad >= 0
    ensures forall k :: 0 <= k < |pts| && 0 <= pts[k].x < w && 0 <= pts[k].y < h ==>
      r.x1 <= pts[k].x < r.x2 && r.y1 <= pts[k].y < r.y2
    ensures r == Rect(Max(Lowest(pts, X) - pad, 0), Max(Lowest(pts, Y) - pad, 0),
                      Min(Highest(pts, X) + 1 + pad, w), Min(Highest(pts, Y) + 1 + pad, h))
  {
    var b := BoundingRect(pts);
    BoundingRectExtremes(pts);
    assert Lowest(pts, X) <= Coord(pts[0], X) <= Highest(pts, X);
    assert Lowest(pts, Y) <= Coord(pts[0], Y) <= Highest(pts, Y);
    Rect(Max(b.x - pad, 0), Max(b.y - pad, 0), Min(b.x + b.width + pad, w), Min(b.y + b.height + pad, h))
  }

  /** More padding never shrinks the crop: the rectangle for `pad2` contains
      the one for `pad1`. */
  lemma CropRectMonotone(pts: seq<Point>, pad1: nat, pad2: nat, h: nat, w: nat)
    requires |pts| > 0 && pad1 <= pad2
    ensures var r1, r2 := CropRect(pts, pad1, h, w), CropRect(pts, pad2, h, w);
      r2.x1 <= r1.x1 && r2.y1 <= r1.y1 && r1.x2 <= r2.x2 && r1.y2 <= r2.y2
  {
  }

  /** The 0/255 mask raster of `pts` over an `h`-by-`w` image. */
  function RasterMask(inMask: MaskBuilder, pts: seq<Point>, h: nat, w: nat): (m: seq<seq<Byte>>)
    ensures IsGrid(m, h, w)
    ensures forall i, j :: 0 <= i < h && 0 <= j < w ==> m[i][j] == 0 || m[i][j] == 255
    ensures forall i, j :: 0 <= i < h && 0 <= j < w ==> (m[i][j] != 0 <==> inMask(pts, i, j))
  {
    seq(h, i => seq(w, j => if inMask(pts, i, j) then 255 else 0))
  }

  /** `cv2.bitwise_and(image, image, mask=mask)`: a pixel is kept where the
      mask is non-zero and blacked out elsewhere. */
  function ApplyMask(img: Patch, mask: seq<seq<Byte>>): (masked: Patch)
    requires |mask| == |img|
    requires forall i :: 0 <= i < |img| ==> |mask[i]| == |img[i]|
    ensures |masked| == |img|
    ensures forall i :: 0 <= i < |img| ==> |masked[i]| == |img[i]|
    ensures forall i, j :: 0 <= i < |img| && 0 <= j < |img[i]| ==>
      masked[i][j] == if mask[i][j] != 0 then img[i][j] else Black
  {
    seq(|img|, i requires 0 <= i < |img| =>
      seq(|img[i]|, j requires 0 <= j < |img[i]| => if mask[i][j] != 0 then img[i][j] else Black))
  }

  /** Masking twice with the same mask changes nothing the first pass did not. */
  lemma MaskIdempotent(img: Patch, mask: seq<seq<Byte>>)
    requires |mask| == |img|
    requires forall i :: 0 <= i < |img| ==> |mask[i]| == |img[i]|
    ensures ApplyMask(ApplyMask(img, mask), mask) == ApplyMask(img, mask)
  {
    var once := ApplyMask(img, mask);
    var twice := ApplyMask(once, mask);
    assert |twice| == |once|;
    forall i | 0 <= i < |once| ensures twice[i] == once[i] {
      assert |twice[i]| == |once[i]|;
    }
  }

  /** Where Python (and numpy) start or stop a slice `s[i:]`/`s[:i]` of a
      sequence of length `n`: negative positions count from the end, and
      positions outside the sequence are clamped to it. */
  function SliceBound(i: int, n: nat): (b: nat)
    ensures b <= n
    ensures 0 <= i <= n ==> b == i
    ensures i > n ==> b == n
    ensures i < 0 && i + n >= 0 ==> b == i + n
    ensures i + n < 0 ==> b == 0
  {
    if i < 0 then Max(i + n, 0) else Min(i, n)
  }

  /** Python's `s[a:b]`. */
  function PySlice<T>(s: seq<T>, a: int, b: int): (t: seq<T>)
    ensures |t| == Max(SliceBound(b, |s|) - SliceBound(a, |s|), 0)
    ensures forall k :: 0 <= k < |t| ==> t[k] == s[SliceBound(a, |s|) + k]
  {
    var lo, hi := SliceBound(a, |s|), SliceBound(b, |s|);
    if lo < hi then s[lo..hi] else []
  }

  /** `masked[y1:y2, x1:x2]` exactly as numpy evaluates it, negative edges
      included. */
  function CropAsWritten(masked: Patch, r: Rect): Patch {
    var rows := PySlice(masked, r.y1, r.y2);
    seq(|rows|, i requires 0 <= i < |rows| => PySlice(rows[i], r.x1, r.x2))
  }

  /** The masked pixels inside the clamped rectangle: rows `y1..y2-1` and
      columns `x1..x2-1`, and nothing when the rectangle is empty. */
  function Crop(masked: Patch, w: nat, r: Rect): (roi: Patch)
    requires forall i :: 0 <= i < |masked| ==> |masked[i]| == w
    requires 0 <= r.x1 && 0 <= r.y1 && r.x2 <= w && r.y2 <= |masked|
    ensures |roi| == Max(r.y2 - r.y1, 0)
    ensures forall i :: 0 <= i < |roi| ==> |roi[i]| == Max(r.x2 - r.x1, 0)
    ensures forall i, j :: 0 <= i < |roi| && 0 <= j < |roi[i]| ==>
      r.y1 + i < |masked| && r.x1 + j < w && roi[i][j] == masked[r.y1 + i][r.x1 + j]
  {
    if r.y1 < r.y2 then
      seq(r.y2 - r.y1, i requires 0 <= i < r.y2 - r.y1 =>
        if r.x1 < r.x2 then masked[r.y1 + i][r.x1..r.x2] else [])
    else
      []
  }

  /** Whenever the clamped right and bottom edges are not negative, numpy's
      slice and the intended crop agree. */
  lemma CropAsWrittenAgrees(masked: Patch, w: nat, r: Rect)
    requires forall i :: 0 <= i < |masked| ==> |masked[i]| == w
    requires 0 <= r.x1 && 0 <= r.y1 && r.x2 <= w && r.y2 <= |masked|
    requires r.x2 >= 0 && r.y2 >= 0
    ensures CropAsWritten(masked, r) == Crop(masked, w, r)
  {
    var a, c := CropAsWritten(masked, r), Crop(masked, w, r);
    assert |a| == |c|;
    forall i | 0 <= i < |a| ensures a[i] == c[i] {
      assert |a[i]| == |c[i]|;
    }
  }

  /** A region lying wholly left of a 10-column image (all its points at
      column -5, no padding) gets a clamped right edge of -4; numpy reads that
      as "up to 4 columns before the end" and returns 6 columns of the image,
      where the intended crop is empty. */
  lemma CropAsWrittenWrapsAround()
    ensures var pts := [Point(-5, 0)];
      var r := CropRect(pts, 0, 1, 10);
      var masked := [seq(10, _ => Black)];
      && r == Rect(0, 0, -4, 1)
      && |CropAsWritten(masked, r)| == 1
      && |CropAsWritten(masked, r)[0]| == 6
      && Crop(masked, 10, r) == [[]]
  {
    var pts := [Point(-5, 0)];
    assert Lowest(pts, X) == -5 && Highest(pts, X) == -5;
    assert Lowest(pts, Y) == 0 && Highest(pts, Y) == 0;
  }

  /** The masked crop of a point set: black outside the mask, cut to the
      padded, clamped bounding rectangle. */
  function MaskedCrop(img: ValidImage, pts: seq<Point>, pad: nat, inMask: MaskBuilder): (roi: Patch)
    requires pts != []
    ensures var r := CropRect(pts, pad, img.height, img.width);
      && |roi| == Max(r.y2 - r.y1, 0) <= img.height
      && forall i :: 0 <= i < |roi| ==> |roi[i]| == Max(r.x2 - r.x1, 0) <= img.width
  {
    var rect := CropRect(pts, pad, img.height, img.width);
    var masked := ApplyMask(img.pixels, RasterMask(inMask, pts, img.height, img.width));
    Crop(masked, img.width, rect)
  }

  /** One pixel of a crop. */
  lemma CropPixel(masked: Patch, w: nat, r: Rect, i: nat, j: nat)
    requires forall i :: 0 <= i < |masked| ==> |masked[i]| == w
    requires 0 <= r.x1 && 0 <= r.y1 && r.x2 <= w && r.y2 <= |masked|
    requires i < |Crop(masked, w, r)| && j < |Crop(masked, w, r)[i]|
    ensures r.y1 + i < |masked| && r.x1 + j < w
    ensures Crop(masked, w, r)[i][j] == masked[r.y1 + i][r.x1 + j]
  {
  }

  /** One pixel of the masked crop of an in-bounds rectangle. */
  lemma MaskedPixel(img: ValidImage, pts: seq<Point>, inMask: MaskBuilder, r: Rect, i: nat, j: nat)
    requires 0 <= r.x1 && 0 <= r.y1 && r.x2 <= img.width && r.y2 <= img.height
    requires var roi := Crop(ApplyMask(img.pixels, RasterMask(inMask, pts, img.height, img.width)), img.width, r);
      i < |roi| && j < |roi[i]|
    ensures r.y1 + i < img.height && r.x1 + j < img.width
    ensures Crop(ApplyMask(img.pixels, RasterMask(inMask, pts, img.height, img.width)), img.width, r)[i][j]
      == if inMask(pts, r.y1 + i, r.x1 + j) then img.pixels[r.y1 + i][r.x1 + j] else Black
  {
    var mask := RasterMask(inMask, pts, img.height, img.width);
    var masked := ApplyMask(img.pixels, mask);
    CropPixel(masked, img.width, r, i, j);
    var y, x := r.y1 + i, r.x1 + j;
    assert masked[y][x] == if mask[y][x] != 0 then img.pixels[y][x] else Black;
  }

  /** Pixel (`i`, `j`) of the crop is the image pixel at row `y1 + i`, column
      `x1 + j` when the mask keeps it, and black otherwise. */
  lemma MaskedCropPixels(img: ValidImage, pts: seq<Point>, pad: nat, inMask: MaskBuilder)
    requires pts != []
    ensures var r, roi := CropRect(pts, pad, img.height, img.width), MaskedCrop(img, pts, pad, inMask);
      forall i, j :: 0 <= i < |roi| && 0 <= j < |roi[i]| ==>
        r.y1 + i < img.height && r.x1 + j < img.width
        && roi[i][j] == if inMask(pts, r.y1 + i, r.x1 + j) then img.pixels[r.y1 + i][r.x1 + j] else Black
  {
    var r := CropRect(pts, pad, img.height, img.width);
    var roi := MaskedCrop(img, pts, pad, inMask);
    assert roi == Crop(ApplyMask(img.pixels, RasterMask(inMask, pts, img.height, img.width)), img.width, r);
    forall i, j | 0 <= i < |roi| && 0 <= j < |roi[i]|
      ensures r.y1 + i < img.height && r.x1 + j < img.width
      ensures roi[i][j] == if inMask(pts, r.y1 + i, r.x1 + j) then img.pixels[r.y1 + i][r.x1 + j] else Black
    {
      MaskedPixel(img, pts, inMask, r, i, j);
    }
  }

  /** The patch of registry region `k`, or nothing when none of its
      landmarks is in range. */
  function ExtractRegion(k: nat, img: ValidImage, lms: seq<Point>, pad: nat, inMask: MaskBuilder)
    : (roi: Option<Patch>)
    requires k < |Registry|
    ensures roi.None? <==> Gather(Registry[k].indices, lms) == []
    ensures roi.Some? ==> roi.value == MaskedCrop(img, RegionPoints(k, lms), pad, inMask)
  {
    var pts := RegionPoints(k, lms);
    if pts == [] then None else Some(MaskedCrop(img, pts, pad, inMask))
  }

  /** The per-region outcomes of one call, in registry order. */
  function RegionOutcomes(img: ValidImage, lms: seq<Point>, pad: nat, inMask: MaskBuilder)
    : (outs: seq<Option<Patch>>)
    ensures |outs| == |Registry|
    ensures forall k :: 0 <= k < |Registry| ==> outs[k] == ExtractRegion(k, img, lms, pad, inMask)
  {
    seq(|Registry|, k requires 0 <= k < |Registry| => ExtractRegion(k, img, lms, pad, inMask))
  }

  /** `extract_rois`: one padding for the whole call, then every registry
      region with a landmark in range, in registry order. */
  function ExtractRois(img: ValidImage, lms: seq<Point>, iod: real, inMask: MaskBuilder)
    : (rois: seq<(string, Patch)>)
    requires iod >= 0.0
    ensures IsSubsequence(Keys(rois), RegistryNames)
  {
    RegistryShape();
    Collect(RegistryNames, RegionOutcomes(img, lms, Padding(lms, iod), inMask))
  }

  /** `extract_rois` keeps a region exactly when one of its landmark indices
      is in range; a region whose indices all fall outside the landmark list
      gets no key. */
  lemma ExtractRoisContents(img: ValidImage, lms: seq<Point>, iod: real, inMask: MaskBuilder, j: nat)
    requires iod >= 0.0
    requires j < |Registry|
    ensures var rois := ExtractRois(img, lms, iod, inMask);
      (Registry[j].name in Keys(rois) <==> exists i :: i in Registry[j].indices && i < |lms|)
      && forall e :: e in rois && e.0 == Registry[j].name ==>
           ExtractRegion(j, img, lms, Padding(lms, iod), inMask) == Some(e.1)
  {
    RegistryShape();
    var outs := RegionOutcomes(img, lms, Padding(lms, iod), inMask);
    CollectKeys(RegistryNames, outs, j);
    CollectEntries(RegistryNames, outs, j);
    GatherNonEmptyIff(Registry[j].indices, lms);
  }
}

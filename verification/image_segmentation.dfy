/**
 * Photo region detection on a captured image (Services/ImageSegmentationService.cs):
 * the downscale factor, the contour acceptance filter, and the greedy merge of
 * overlapping regions.
 *
 * The OpenCV pipeline (grey, blur, Canny, dilation, contour search, hull, minimum-area
 * rectangle) is not modelled: each contour arrives with the numbers OpenCV reports for it.
 */
module ImageSegmentation {
  import opened Wrappers
  import opened Linq

  /** A WPF `Rect` of non-negative size. */
  datatype Rect = Rect(x: real, y: real, width: real, height: real)

  /** An OpenCV integer rectangle. */
  datatype IntRect = IntRect(x: int, y: int, width: int, height: int)

  /** The kind of a region: only photos are produced by segmentation; other regions go to OCR. */
  datatype RegionKind = Photo | Text

  datatype SegmentedRegion = SegmentedRegion(kind: RegionKind, bounds: Rect)

  /** A captured image's size in pixels. */
  datatype Frame = Frame(width: nat, height: nat)

  /** One external contour with what OpenCV measures of it. */
  datatype Contour = Contour(area: real, convex: bool, hullArea: real, rotatedArea: real, bounding: IntRect)

  const ProcessingWidth: nat := 800

  // ---------------------------------------------------------------------------
  // Rectangles
  // ---------------------------------------------------------------------------

  function Area(r: Rect): real
  {
    r.width * r.height
  }

  function Max(a: real, b: real): real { if a >= b then a else b }
  function Min(a: real, b: real): real { if a <= b then a else b }

  /** `Rect.IntersectsWith`: touching edges count as intersecting. */
  predicate IntersectsWith(a: Rect, b: Rect)
  {
    b.x <= a.x + a.width && b.x + b.width >= a.x && b.y <= a.y + a.height && b.y + b.height >= a.y
  }

  /** `Rect.Intersect`: `None` stands for `Rect.Empty`. */
  function Intersect(a: Rect, b: Rect): Option<Rect>
  {
    if !IntersectsWith(a, b) then None
    else
      var left := Max(a.x, b.x);
      var top := Max(a.y, b.y);
      Some(Rect(left, top, Max(Min(a.x + a.width, b.x + b.width) - left, 0.0), Max(Min(a.y + a.height, b.y + b.height) - top, 0.0)))
  }

  /** `Rect.Union` of two non-empty rectangles: the bounding box of both. */
  function Union(a: Rect, b: Rect): Rect
  {
    var left := Min(a.x, b.x);
    var top := Min(a.y, b.y);
    Rect(left, top, Max(Max(a.x + a.width, b.x + b.width) - left, 0.0), Max(Max(a.y + a.height, b.y + b.height) - top, 0.0))
  }

  predicate Contains(outer: Rect, inner: Rect)
  {
    outer.x <= inner.x && inner.x + inner.width <= outer.x + outer.width
    && outer.y <= inner.y && inner.y + inner.height <= outer.y + outer.height
  }

  lemma {:induction false} ContainsTransitive(a: Rect, b: Rect, c: Rect)
    requires Contains(a, b) && Contains(b, c)
    ensures Contains(a, c)
  {
  }

  /** The union contains both rectangles. */
  lemma {:induction false} UnionContains(a: Rect, b: Rect)
    ensures Contains(Union(a, b), a) && Contains(Union(a, b), b)
  {
  }

  /** The intersection lies inside both rectangles of non-negative size. */
  lemma {:induction false} IntersectInside(a: Rect, b: Rect)
    requires a.width >= 0.0 && a.height >= 0.0 && b.width >= 0.0 && b.height >= 0.0
    ensures Intersect(a, b).Some? <==> IntersectsWith(a, b)
    ensures Intersect(a, b).Some? ==> Contains(a, Intersect(a, b).value) && Contains(b, Intersect(a, b).value)
  {
  }

  // ---------------------------------------------------------------------------
  // Ratios in double arithmetic
  // ---------------------------------------------------------------------------

  /** `p / q < r` in IEEE arithmetic: dividing by zero gives an infinity, or NaN for 0/0, which compares false. */
  predicate Below(p: real, q: real, r: real)
  {
    if q == 0.0 then p < 0.0 else p / q < r
  }

  /** `p / q > r` in IEEE arithmetic. */
  predicate Above(p: real, q: real, r: real)
  {
    if q == 0.0 then p > 0.0 else p / q > r
  }

  lemma {:induction false} DivisionCompare(p: real, q: real, r: real)
    requires q > 0.0
    ensures Below(p, q, r) <==> p < r * q
    ensures Above(p, q, r) <==> p > r * q
  {
    assert (p / q) * q == p;
    if p / q < r {
      assert (p / q) * q < r * q;
    }
    if p / q > r {
      assert (p / q) * q > r * q;
    }
    if p < r * q {
      assert p / q < r;
    }
    if p > r * q {
      assert p / q > r;
    }
  }

  // ---------------------------------------------------------------------------
  // Segment
  // ---------------------------------------------------------------------------

  /** The factor that maps the processed image back to the source: `width / 800` for wide images, else 1. */
  function Scale(width: nat): (s: real)
    ensures s >= 1.0
    ensures width > ProcessingWidth ==> s * ProcessingWidth as real == width as real
    ensures width <= ProcessingWidth ==> s == 1.0
  {
    if width > ProcessingWidth then width as real / ProcessingWidth as real else 1.0
  }

  /** The size segmentation works at: wide images are shrunk to 800 pixels wide, the height truncated. */
  function ProcessedFrame(frame: Frame): (p: Frame)
    ensures frame.width <= ProcessingWidth ==> p == frame
    ensures frame.width > ProcessingWidth ==> p.width == ProcessingWidth && p.height <= frame.height
  {
    if frame.width > ProcessingWidth then Frame(ProcessingWidth, (frame.height * ProcessingWidth) / frame.width)
    else frame
  }

  /** `Mat.Empty()`: no pixels. */
  predicate EmptyFrame(frame: Frame)
  {
    frame.width == 0 || frame.height == 0
  }

  /** The acceptance filter for one contour, with `imageArea` the processed image's pixel count. */
  predicate Accepted(c: Contour, imageArea: real)
  {
    && !(c.area < imageArea * 0.005 || c.area > imageArea * 0.95)
    && (c.convex || !Below(c.area, c.hullArea, 0.85))
    && !Below(c.area, c.rotatedArea, 0.85)
    && !(Below(c.bounding.width as real, c.bounding.height as real, 0.1) || Above(c.bounding.width as real, c.bounding.height as real, 10.0))
  }

  /**
   * With positive hull, rectangle and box heights, a contour is accepted exactly when its
   * area lies within 0.5%..95% of the image, it fills at least 85% of its convex hull
   * (when not convex) and of its rotated rectangle, and its aspect ratio lies in 0.1..10.
   */
  lemma {:induction false} AcceptedSpec(c: Contour, imageArea: real)
    requires c.hullArea > 0.0 && c.rotatedArea > 0.0 && c.bounding.height > 0
    ensures Accepted(c, imageArea) <==>
      && imageArea * 0.005 <= c.area <= imageArea * 0.95
      && (c.convex || c.area >= 0.85 * c.hullArea)
      && c.area >= 0.85 * c.rotatedArea
      && 0.1 * c.bounding.height as real <= c.bounding.width as real <= 10.0 * c.bounding.height as real
  {
    DivisionCompare(c.area, c.hullArea, 0.85);
    DivisionCompare(c.area, c.rotatedArea, 0.85);
    DivisionCompare(c.bounding.width as real, c.bounding.height as real, 0.1);
    DivisionCompare(c.bounding.width as real, c.bounding.height as real, 10.0);
  }

  /** An accepted contour's bounding box, mapped back to source coordinates, as a photo region. */
  function ScaledRegion(box: IntRect, scale: real): SegmentedRegion
  {
    SegmentedRegion(Photo, Rect(box.x as real * scale, box.y as real * scale, box.width as real * scale, box.height as real * scale))
  }

  /** The regions of the accepted contours, in contour order. */
  function Candidates(contours: seq<Contour>, imageArea: real, scale: real): seq<SegmentedRegion>
  {
    if contours == [] then []
    else
      var c := contours[|contours| - 1];
      Candidates(contours[..|contours| - 1], imageArea, scale)
      + if Accepted(c, imageArea) then [ScaledRegion(c.bounding, scale)] else []
  }

  /** `Segment`: nothing for an empty image, else the merged regions of the accepted contours. */
  function Segmented(frame: Frame, contours: seq<Contour>): seq<SegmentedRegion>
  {
    if EmptyFrame(frame) then []
    else
      var processed := ProcessedFrame(frame);
      Merged(Candidates(contours, (processed.width * processed.height) as real, Scale(frame.width)))
  }

  /** Each candidate is the scaled box of an accepted contour; there is at most one per contour. */
  lemma {:induction false} CandidatesSpec(contours: seq<Contour>, imageArea: real, scale: real)
    ensures |Candidates(contours, imageArea, scale)| <= |contours|
    ensures forall r :: r in Candidates(contours, imageArea, scale) ==>
      exists c :: c in contours && Accepted(c, imageArea) && r == ScaledRegion(c.bounding, scale)
    ensures forall c :: c in contours && Accepted(c, imageArea) ==> ScaledRegion(c.bounding, scale) in Candidates(contours, imageArea, scale)
    decreases |contours|
  {
    if contours != [] {
      var init := contours[..|contours| - 1];
      CandidatesSpec(init, imageArea, scale);
      assert contours == init + [contours[|contours| - 1]];
    }
  }

  /** An empty image has no regions; every region is a photo, and there are no more regions than contours. */
  lemma {:induction false} SegmentedSpec(frame: Frame, contours: seq<Contour>)
    ensures EmptyFrame(frame) ==> Segmented(frame, contours) == []
    ensures forall r :: r in Segmented(frame, contours) ==> r.kind == Photo
    ensures |Segmented(frame, contours)| <= |contours|
  {
    if !EmptyFrame(frame) {
      var processed := ProcessedFrame(frame);
      var candidates := Candidates(contours, (processed.width * processed.height) as real, Scale(frame.width));
      CandidatesSpec(contours, (processed.width * processed.height) as real, Scale(frame.width));
      MergedSpec(candidates);
      MergedKinds(candidates, Photo);
    }
  }

  /** `Segment`: the filter loop over the contours, then the merge. */
  method Segment(frame: Frame, contours: seq<Contour>) returns (regions: seq<SegmentedRegion>)
    ensures regions == Segmented(frame, contours)
  {
    if EmptyFrame(frame) {
      return [];
    }
    var scale := 1.0;
    var processed := frame;
    if frame.width > ProcessingWidth {
      scale := frame.width as real / ProcessingWidth as real;
      processed := Frame(ProcessingWidth, (frame.height * ProcessingWidth) / frame.width);
    }
    var imageArea := (processed.width * processed.height) as real;
    var minArea := imageArea * 0.005;
    var maxArea := imageArea * 0.95;
    var candidates: seq<SegmentedRegion> := [];
    for k := 0 to |contours|
      invariant candidates == Candidates(contours[..k], imageArea, scale)
    {
      assert contours[..k + 1][..k] == contours[..k];
      var c := contours[k];
      if c.area < minArea || c.area > maxArea {
        continue;
      }
      if !c.convex && Below(c.area, c.hullArea, 0.85) {
        continue;
      }
      if Below(c.area, c.rotatedArea, 0.85) {
        continue;
      }
      var w := c.bounding.width as real;
      var h := c.bounding.height as real;
      if Below(w, h, 0.1) || Above(w, h, 10.0) {
        continue;
      }
      candidates := candidates + [ScaledRegion(c.bounding, scale)];
    }
    assert contours[..|contours|] == contours;
    regions := MergeOverlaps(candidates);
  }

  // ---------------------------------------------------------------------------
  // MergeOverlaps
  // ---------------------------------------------------------------------------

  /** `OrderByDescending(area)`. */
  function ByArea(): (SegmentedRegion, SegmentedRegion) -> bool
  {
    (a: SegmentedRegion, b: SegmentedRegion) => Area(a.bounds) > Area(b.bounds)
  }

  lemma {:induction false} ByAreaIsStrictWeak()
    ensures StrictWeakOrder(ByArea())
  {
  }

  /**
   * The scan of the kept regions for one candidate, from index `i`: at the first kept
   * region it intersects with more than 70% of the candidate's area it is dropped; at
   * the first one it covers by more than 90% that region becomes the union; failing
   * both everywhere, the candidate is appended.
   */
  function PlaceFrom(merged: seq<SegmentedRegion>, current: SegmentedRegion, i: nat): seq<SegmentedRegion>
    requires i <= |merged|
    decreases |merged| - i
  {
    if i == |merged| then merged + [current]
    else
      var inter := Intersect(merged[i].bounds, current.bounds);
      if inter.None? then PlaceFrom(merged, current, i + 1)
      else
        var interArea := Area(inter.value);
        if Above(interArea, Area(current.bounds), 0.7) then merged
        else if Above(interArea, Area(merged[i].bounds), 0.9) then
          merged[i := SegmentedRegion(current.kind, Union(merged[i].bounds, current.bounds))]
        else PlaceFrom(merged, current, i + 1)
  }

  function Place(merged: seq<SegmentedRegion>, current: SegmentedRegion): seq<SegmentedRegion>
  {
    PlaceFrom(merged, current, 0)
  }

  /** The candidates in order, each placed into the kept list. */
  function MergeAll(merged: seq<SegmentedRegion>, candidates: seq<SegmentedRegion>): seq<SegmentedRegion>
    decreases |candidates|
  {
    if candidates == [] then merged else MergeAll(Place(merged, candidates[0]), candidates[1..])
  }

  /** `MergeOverlaps`: lists of at most one region unchanged, else the candidates by descending area. */
  function Merged(regions: seq<SegmentedRegion>): seq<SegmentedRegion>
  {
    if |regions| <= 1 then regions else MergeAll([], SortBy(regions, ByArea()))
  }

  /**
   * Placing a candidate either leaves the kept list alone, or widens one kept region to its
   * union with the candidate (taking the candidate's kind), or appends the candidate; so
   * kept regions only grow. A candidate that meets no kept region is appended.
   */
  lemma {:induction false} PlaceFromSpec(merged: seq<SegmentedRegion>, current: SegmentedRegion, i: nat)
    requires i <= |merged|
    ensures var r := PlaceFrom(merged, current, i);
      && (r == merged + [current] || |r| == |merged|)
      && forall k :: 0 <= k < |merged| ==>
           r[k] == merged[k] || r[k] == SegmentedRegion(current.kind, Union(merged[k].bounds, current.bounds))
    ensures (forall k :: i <= k < |merged| ==> Intersect(merged[k].bounds, current.bounds).None?) ==>
      PlaceFrom(merged, current, i) == merged + [current]
    ensures |PlaceFrom(merged, current, i)| == |merged| ==>
      exists k :: i <= k < |merged| && Intersect(merged[k].bounds, current.bounds).Some?
    decreases |merged| - i
  {
    if i < |merged| {
      PlaceFromSpec(merged, current, i + 1);
    }
  }

  /** Kept region k overlaps the candidate by more than 70% of the candidate's area. */
  ghost predicate Drops(merged: seq<SegmentedRegion>, current: SegmentedRegion, k: nat)
    requires k < |merged|
  {
    var inter := Intersect(merged[k].bounds, current.bounds);
    inter.Some? && Above(Area(inter.value), Area(current.bounds), 0.7)
  }

  /** The candidate covers more than 90% of kept region k. */
  ghost predicate Widens(merged: seq<SegmentedRegion>, current: SegmentedRegion, k: nat)
    requires k < |merged|
  {
    var inter := Intersect(merged[k].bounds, current.bounds);
    inter.Some? && Above(Area(inter.value), Area(merged[k].bounds), 0.9)
  }

  /** One of the two merge tests succeeds against kept region k. */
  ghost predicate Fires(merged: seq<SegmentedRegion>, current: SegmentedRegion, k: nat)
    requires k < |merged|
  {
    Drops(merged, current, k) || Widens(merged, current, k)
  }

  /**
   * The merge rule at the first kept region (from index i on) where a test succeeds: when
   * the overlap exceeds 70% of the candidate, the candidate is dropped and the list is
   * unchanged; otherwise the candidate covers more than 90% of that region, which is
   * replaced in place by the union, with the candidate's kind.
   */
  lemma {:induction false} PlaceFromAt(merged: seq<SegmentedRegion>, current: SegmentedRegion, i: nat, k: nat)
    requires i <= k < |merged| && Fires(merged, current, k)
    requires forall j :: i <= j < k ==> !Fires(merged, current, j)
    ensures PlaceFrom(merged, current, i)
      == if Drops(merged, current, k) then merged
         else merged[k := SegmentedRegion(current.kind, Union(merged[k].bounds, current.bounds))]
    decreases k - i
  {
    if i < k {
      assert !Fires(merged, current, i);
      PlaceFromAt(merged, current, i + 1, k);
    }
  }

  /** When no test succeeds against any kept region from index i on, the candidate is appended. */
  lemma {:induction false} PlaceFromNoneFires(merged: seq<SegmentedRegion>, current: SegmentedRegion, i: nat)
    requires i <= |merged|
    requires forall j :: i <= j < |merged| ==> !Fires(merged, current, j)
    ensures PlaceFrom(merged, current, i) == merged + [current]
    decreases |merged| - i
  {
    if i < |merged| {
      assert !Fires(merged, current, i);
      PlaceFromNoneFires(merged, current, i + 1);
    }
  }

  lemma {:induction false} PlaceSpec(merged: seq<SegmentedRegion>, current: SegmentedRegion)
    ensures var r := Place(merged, current);
      && |merged| <= |r| <= |merged| + 1
      && (|r| == |merged| + 1 ==> r == merged + [current])
      && (forall k :: 0 <= k < |merged| ==> Contains(r[k].bounds, merged[k].bounds))
      && forall k :: 0 <= k < |r| ==> r[k].kind in {current.kind} + set j | 0 <= j < |merged| :: merged[j].kind
    ensures (forall k :: 0 <= k < |merged| ==> Intersect(merged[k].bounds, current.bounds).None?) ==>
      Place(merged, current) == merged + [current]
  {
    PlaceFromSpec(merged, current, 0);
    var r := Place(merged, current);
    forall k | 0 <= k < |merged|
      ensures Contains(r[k].bounds, merged[k].bounds)
    {
      UnionContains(merged[k].bounds, current.bounds);
    }
  }

  /** Over all candidates: the list never shrinks, kept regions only grow, and it gains at most one entry per candidate. */
  lemma {:induction false} MergeAllSpec(merged: seq<SegmentedRegion>, candidates: seq<SegmentedRegion>)
    ensures var r := MergeAll(merged, candidates);
      && |merged| <= |r| <= |merged| + |candidates|
      && forall k :: 0 <= k < |merged| ==> Contains(r[k].bounds, merged[k].bounds)
    decreases |candidates|
  {
    if candidates != [] {
      var next := Place(merged, candidates[0]);
      PlaceSpec(merged, candidates[0]);
      MergeAllSpec(next, candidates[1..]);
      var r := MergeAll(merged, candidates);
      forall k | 0 <= k < |merged|
        ensures Contains(r[k].bounds, merged[k].bounds)
      {
        ContainsTransitive(r[k].bounds, next[k].bounds, merged[k].bounds);
      }
    }
  }

  /** The merge returns lists of at most one region unchanged, and never more regions than it was given. */
  lemma {:induction false} MergedSpec(regions: seq<SegmentedRegion>)
    ensures |regions| <= 1 ==> Merged(regions) == regions
    ensures |Merged(regions)| <= |regions|
    ensures |regions| > 1 ==> exists order ::
      multiset(order) == multiset(regions) && Ordered(order, ByArea()) && Merged(regions) == MergeAll([], order)
  {
    if |regions| > 1 {
      var order := SortBy(regions, ByArea());
      SortByPermutes(regions, ByArea());
      MergeAllSpec([], order);
      ByAreaIsStrictWeak();
      SortByOrdered(regions, ByArea());
      assert multiset(order) == multiset(regions) && Ordered(order, ByArea()) && Merged(regions) == MergeAll([], order);
    }
  }

  /** Every merged region has a kind some input region had; in particular all-photo input stays all-photo. */
  lemma {:induction false} MergeAllKinds(merged: seq<SegmentedRegion>, candidates: seq<SegmentedRegion>, kind: RegionKind)
    requires forall r :: r in merged ==> r.kind == kind
    requires forall r :: r in candidates ==> r.kind == kind
    ensures forall r :: r in MergeAll(merged, candidates) ==> r.kind == kind
    decreases |candidates|
  {
    if candidates != [] {
      PlaceSpec(merged, candidates[0]);
      var next := Place(merged, candidates[0]);
      forall r | r in next
        ensures r.kind == kind
      {
        var k :| 0 <= k < |next| && next[k] == r;
        assert next[k].kind in {candidates[0].kind} + set j | 0 <= j < |merged| :: merged[j].kind;
      }
      assert forall r :: r in candidates[1..] ==> r in candidates;
      MergeAllKinds(next, candidates[1..], kind);
    }
  }

  lemma {:induction false} MergedKinds(regions: seq<SegmentedRegion>, kind: RegionKind)
    requires forall r :: r in regions ==> r.kind == kind
    ensures forall r :: r in Merged(regions) ==> r.kind == kind
  {
    if |regions| > 1 {
      var sorted := SortBy(regions, ByArea());
      SortByPermutes(regions, ByArea());
      forall r | r in sorted
        ensures r.kind == kind
      {
        assert r in multiset(sorted);
      }
      MergeAllKinds([], sorted, kind);
    }
  }

  /** `MergeOverlaps`: pops the sorted candidates and scans the kept list for each. */
  method MergeOverlaps(regions: seq<SegmentedRegion>) returns (merged: seq<SegmentedRegion>)
    ensures merged == Merged(regions)
  {
    if |regions| <= 1 {
      return regions;
    }
    var sorted := SortBy(regions, ByArea());
    merged := [];
    while |sorted| > 0
      invariant MergeAll(merged, sorted) == Merged(regions)
      decreases |sorted|
    {
      var current := sorted[0];
      sorted := sorted[1..];
      ghost var before := merged;
      var isMerged := false;
      var i := 0;
      while i < |merged|
        invariant 0 <= i <= |merged| == |before|
        invariant merged == before
        invariant Place(before, current) == PlaceFrom(before, current, i)
        decreases |merged| - i
      {
        var inter := Intersect(merged[i].bounds, current.bounds);
        if inter.None? {
          i := i + 1;
          continue;
        }
        var intersectArea := Area(inter.value);
        var currentArea := Area(current.bounds);
        var existingArea := Area(merged[i].bounds);
        if Above(intersectArea, currentArea, 0.7) {
          isMerged := true;
          break;
        }
        if Above(intersectArea, existingArea, 0.9) {
          merged := merged[i := SegmentedRegion(current.kind, Union(merged[i].bounds, current.bounds))];
          isMerged := true;
          break;
        }
        i := i + 1;
      }
      if !isMerged {
        merged := merged + [current];
      }
      assert merged == Place(before, current);
    }
  }
}

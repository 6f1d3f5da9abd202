/**
 * The capture pipeline (Services/ImagePipelineService.cs): segment the captured image,
 * crop each region with padding, keep photo crops, read the other crops with OCR, and fall
 * back to reading the whole image once when no region produced text.
 *
 * OCR (with its OpenCV preprocessing) is a parameter; each call it receives is recorded, so
 * the model can say how often the whole image is read. A photo is represented by the
 * rectangle it is cropped from.
 */
module ImagePipeline {
  import opened Wrappers
  import opened Text
  import opened ImageSegmentation

  /** What one OCR call reads: a region's crop, or the whole image. */
  datatype OcrCall = RegionRead(crop: IntRect) | WholeImageRead

  datatype ProcessedResult = ProcessedResult(photos: seq<IntRect>, ocrText: string)

  /** The padding around every region, in pixels. */
  const Padding: int := 8

  /** `Environment.NewLine` on Windows. */
  const NewLine: string := "\r\n"

  /**
   * `PadRegion`: grows the region by `padding` on every side, clamped to the image's top-left
   * corner, with the size cut to what remains of the image; `None` where the WPF `Rect`
   * constructor rejects the negative size that results when the origin is past the image.
   */
  function PadRegion(region: Rect, maxWidth: int, maxHeight: int, padding: int): Option<Rect>
  {
    var x := Max(0.0, region.x - padding as real);
    var y := Max(0.0, region.y - padding as real);
    var width := Min(maxWidth as real - x, region.width + (padding * 2) as real);
    var height := Min(maxHeight as real - y, region.height + (padding * 2) as real);
    if width < 0.0 || height < 0.0 then None else Some(Rect(x, y, width, height))
  }

  /**
   * The padded rectangle has a non-negative origin, ends inside the image,
   * and is at most `2 * padding` larger than the region; a region with room for the padding
   * on every side is grown by exactly that, and a region inside the image is always padded.
   */
  lemma {:induction false} PadRegionSpec(region: Rect, maxWidth: int, maxHeight: int, padding: int)
    ensures var r := PadRegion(region, maxWidth, maxHeight, padding);
      r.Some? ==>
        && r.value.x >= 0.0 && r.value.y >= 0.0
        && r.value.x + r.value.width <= maxWidth as real && r.value.y + r.value.height <= maxHeight as real
        && r.value.width <= region.width + (2 * padding) as real && r.value.height <= region.height + (2 * padding) as real
    ensures padding >= 0 && region.width >= 0.0 && region.height >= 0.0
            && 0.0 <= region.x && region.x + region.width <= maxWidth as real
            && 0.0 <= region.y && region.y + region.height <= maxHeight as real
            ==> PadRegion(region, maxWidth, maxHeight, padding).Some?
    ensures padding >= 0 && region.width >= 0.0 && region.height >= 0.0
            && padding as real <= region.x && region.x + region.width + padding as real <= maxWidth as real
            && padding as real <= region.y && region.y + region.height + padding as real <= maxHeight as real
            ==> PadRegion(region, maxWidth, maxHeight, padding) ==
                Some(Rect(region.x - padding as real, region.y - padding as real,
                          region.width + (2 * padding) as real, region.height + (2 * padding) as real))
  {
  }

  /** The C# `(int)` cast of a double: truncation toward zero. */
  function Truncate(v: real): (t: int)
    ensures v >= 0.0 ==> t as real <= v < t as real + 1.0
    ensures v < 0.0 ==> t as real - 1.0 < v <= t as real
  {
    if v >= 0.0 then v.Floor else -((-v).Floor)
  }

  function MaxInt(a: int, b: int): int { if a >= b then a else b }

  /** `ToRect`: the origin truncated to integers, the size truncated but at least 1. */
  function ToRect(rect: Rect): IntRect
  {
    IntRect(Truncate(rect.x), Truncate(rect.y), MaxInt(1, Truncate(rect.width)), MaxInt(1, Truncate(rect.height)))
  }

  /**
   * The integer rectangle is at least 1×1; for a non-negative origin it starts at the whole
   * pixel containing it, and a size of at least one pixel is truncated, never rounded up.
   */
  lemma {:induction false} ToRectSpec(rect: Rect)
    ensures ToRect(rect).width >= 1 && ToRect(rect).height >= 1
    ensures rect.x >= 0.0 ==> ToRect(rect).x as real <= rect.x < ToRect(rect).x as real + 1.0
    ensures rect.y >= 0.0 ==> ToRect(rect).y as real <= rect.y < ToRect(rect).y as real + 1.0
    ensures rect.width >= 1.0 ==> ToRect(rect).width as real <= rect.width < ToRect(rect).width as real + 1.0
    ensures rect.height >= 1.0 ==> ToRect(rect).height as real <= rect.height < ToRect(rect).height as real + 1.0
  {
  }

  /** The crop taken for a region. */
  function Crop(region: SegmentedRegion, frame: Frame): Option<IntRect>
  {
    var padded := PadRegion(region.bounds, frame.width, frame.height, Padding);
    if padded.None? then None else Some(ToRect(padded.value))
  }

  /** Every region can be cropped (otherwise the pipeline fails with an exception). */
  predicate Croppable(regions: seq<SegmentedRegion>, frame: Frame)
  {
    forall k :: 0 <= k < |regions| ==> Crop(regions[k], frame).Some?
  }

  /** The crops of the photo regions, in region order. */
  function PhotosOf(regions: seq<SegmentedRegion>, frame: Frame): seq<IntRect>
    requires Croppable(regions, frame)
  {
    if regions == [] then []
    else
      var region := regions[|regions| - 1];
      PhotosOf(regions[..|regions| - 1], frame)
      + if region.kind == Photo then [Crop(region, frame).value] else []
  }

  /** The OCR calls on the crops of the other regions, in region order. */
  function RegionCalls(regions: seq<SegmentedRegion>, frame: Frame): seq<OcrCall>
    requires Croppable(regions, frame)
  {
    if regions == [] then []
    else
      var region := regions[|regions| - 1];
      RegionCalls(regions[..|regions| - 1], frame)
      + if region.kind == Photo then [] else [RegionRead(Crop(region, frame).value)]
  }

  /** The non-blank texts read from the other regions, in region order. */
  function RegionTexts(regions: seq<SegmentedRegion>, frame: Frame, ocr: OcrCall -> string): seq<string>
    requires Croppable(regions, frame)
  {
    if regions == [] then []
    else
      var region := regions[|regions| - 1];
      var text := ocr(RegionRead(Crop(region, frame).value));
      RegionTexts(regions[..|regions| - 1], frame, ocr)
      + if region.kind == Photo || IsBlank(text) then [] else [text]
  }

  /** The text parts: the regions' texts, or else the whole image's text when it is not blank. */
  function TextParts(regions: seq<SegmentedRegion>, frame: Frame, ocr: OcrCall -> string): seq<string>
    requires Croppable(regions, frame)
  {
    var parts := RegionTexts(regions, frame, ocr);
    if parts != [] then parts
    else if IsBlank(ocr(WholeImageRead)) then []
    else [ocr(WholeImageRead)]
  }

  /** Every OCR call of a run: the non-photo crops, then the whole image when no crop gave text. */
  function OcrCalls(regions: seq<SegmentedRegion>, frame: Frame, ocr: OcrCall -> string): seq<OcrCall>
    requires Croppable(regions, frame)
  {
    RegionCalls(regions, frame) + if RegionTexts(regions, frame, ocr) == [] then [WholeImageRead] else []
  }

  /** The result: the photo crops and the text parts joined by blank lines, trimmed. */
  function Processed(regions: seq<SegmentedRegion>, frame: Frame, ocr: OcrCall -> string): ProcessedResult
    requires Croppable(regions, frame)
  {
    ProcessedResult(PhotosOf(regions, frame), Trim(Join(TextParts(regions, frame, ocr), NewLine + NewLine)))
  }

  function CountKind(regions: seq<SegmentedRegion>, kind: RegionKind): (n: nat)
    ensures n <= |regions|
  {
    if regions == [] then 0
    else CountKind(regions[..|regions| - 1], kind) + if regions[|regions| - 1].kind == kind then 1 else 0
  }

  /**
   * One photo per photo region; one OCR call per other region, each on that region's crop,
   * whose non-blank results are kept; region reads are never whole-image reads.
   */
  lemma {:induction false} RoutingSpec(regions: seq<SegmentedRegion>, frame: Frame, ocr: OcrCall -> string)
    requires Croppable(regions, frame)
    ensures |PhotosOf(regions, frame)| == CountKind(regions, Photo)
    ensures |RegionCalls(regions, frame)| == |regions| - CountKind(regions, Photo)
    ensures WholeImageRead !in RegionCalls(regions, frame)
    ensures |RegionTexts(regions, frame, ocr)| <= |regions| - CountKind(regions, Photo)
    ensures forall t :: t in RegionTexts(regions, frame, ocr) ==> !IsBlank(t)
    decreases |regions|
  {
    if regions != [] {
      CroppableInit(regions, frame);
      RoutingSpec(regions[..|regions| - 1], frame, ocr);
    }
  }

  lemma {:induction false} CroppableInit(regions: seq<SegmentedRegion>, frame: Frame)
    requires regions != [] && Croppable(regions, frame)
    ensures Croppable(regions[..|regions| - 1], frame)
  {
    var init := regions[..|regions| - 1];
    forall k | 0 <= k < |init|
      ensures Crop(init[k], frame).Some?
    {
      assert init[k] == regions[k];
    }
  }

  /** The positions of the photo regions, increasing: every photo region's index once. */
  function PhotoPositions(regions: seq<SegmentedRegion>): (r: seq<nat>)
    ensures forall j :: 0 <= j < |r| ==> r[j] < |regions| && regions[r[j]].kind == Photo
    ensures forall i, j :: 0 <= i < j < |r| ==> r[i] < r[j]
    ensures forall k :: 0 <= k < |regions| && regions[k].kind == Photo ==> k in r
  {
    if regions == [] then []
    else
      var init := regions[..|regions| - 1];
      assert forall k :: 0 <= k < |init| ==> init[k] == regions[k];
      PhotoPositions(init) + if regions[|regions| - 1].kind == Photo then [|regions| - 1] else []
  }

  /** Region k is not a photo and its crop reads as non-blank text. */
  predicate KeepsText(regions: seq<SegmentedRegion>, frame: Frame, ocr: OcrCall -> string, k: nat)
    requires Croppable(regions, frame) && k < |regions|
  {
    regions[k].kind != Photo && !IsBlank(ocr(RegionRead(Crop(regions[k], frame).value)))
  }

  /** The positions of the regions whose text is kept, increasing: every such index once. */
  function TextPositions(regions: seq<SegmentedRegion>, frame: Frame, ocr: OcrCall -> string): (r: seq<nat>)
    requires Croppable(regions, frame)
    ensures forall j :: 0 <= j < |r| ==> r[j] < |regions| && KeepsText(regions, frame, ocr, r[j])
    ensures forall i, j :: 0 <= i < j < |r| ==> r[i] < r[j]
    ensures forall k :: 0 <= k < |regions| && KeepsText(regions, frame, ocr, k) ==> k in r
  {
    if regions == [] then []
    else
      KeepsTextInit(regions, frame, ocr);
      TextPositions(regions[..|regions| - 1], frame, ocr)
      + if KeepsText(regions, frame, ocr, |regions| - 1) then [|regions| - 1] else []
  }

  lemma {:induction false} KeepsTextInit(regions: seq<SegmentedRegion>, frame: Frame, ocr: OcrCall -> string)
    requires regions != [] && Croppable(regions, frame)
    ensures Croppable(regions[..|regions| - 1], frame)
    ensures forall k :: 0 <= k < |regions| - 1 ==>
      KeepsText(regions[..|regions| - 1], frame, ocr, k) == KeepsText(regions, frame, ocr, k)
  {
    CroppableInit(regions, frame);
    var init := regions[..|regions| - 1];
    forall k | 0 <= k < |init|
      ensures KeepsText(init, frame, ocr, k) == KeepsText(regions, frame, ocr, k)
    {
      assert init[k] == regions[k];
    }
  }

  /** The j-th photo is the crop of the j-th photo region. */
  lemma {:induction false} PhotosInOrder(regions: seq<SegmentedRegion>, frame: Frame)
    requires Croppable(regions, frame)
    ensures |PhotosOf(regions, frame)| == |PhotoPositions(regions)|
    ensures forall j :: 0 <= j < |PhotoPositions(regions)| ==>
      PhotosOf(regions, frame)[j] == Crop(regions[PhotoPositions(regions)[j]], frame).value
    decreases |regions|
  {
    if regions != [] {
      var init := regions[..|regions| - 1];
      CroppableInit(regions, frame);
      PhotosInOrder(init, frame);
      forall j | 0 <= j < |PhotoPositions(init)|
        ensures init[PhotoPositions(init)[j]] == regions[PhotoPositions(init)[j]]
      {
      }
    }
  }

  /** The j-th kept text is the OCR text of the j-th region whose text is kept. */
  lemma {:induction false} TextsInOrder(regions: seq<SegmentedRegion>, frame: Frame, ocr: OcrCall -> string)
    requires Croppable(regions, frame)
    ensures |RegionTexts(regions, frame, ocr)| == |TextPositions(regions, frame, ocr)|
    ensures forall j :: 0 <= j < |TextPositions(regions, frame, ocr)| ==>
      RegionTexts(regions, frame, ocr)[j] == ocr(RegionRead(Crop(regions[TextPositions(regions, frame, ocr)[j]], frame).value))
    decreases |regions|
  {
    if regions != [] {
      var init := regions[..|regions| - 1];
      CroppableInit(regions, frame);
      TextsInOrder(init, frame, ocr);
      forall j | 0 <= j < |TextPositions(init, frame, ocr)|
        ensures init[TextPositions(init, frame, ocr)[j]] == regions[TextPositions(init, frame, ocr)[j]]
      {
      }
    }
  }

  /**
   * The whole image is read exactly once when no region produced text and never otherwise;
   * every text part is non-blank, and the result text is trimmed and empty when there are
   * no parts.
   */
  lemma {:induction false} ProcessedSpec(regions: seq<SegmentedRegion>, frame: Frame, ocr: OcrCall -> string)
    requires Croppable(regions, frame)
    ensures multiset(OcrCalls(regions, frame, ocr))[WholeImageRead] == if RegionTexts(regions, frame, ocr) == [] then 1 else 0
    ensures forall t :: t in TextParts(regions, frame, ocr) ==> !IsBlank(t)
    ensures TextParts(regions, frame, ocr) == [] ==> Processed(regions, frame, ocr).ocrText == []
    ensures var text := Processed(regions, frame, ocr).ocrText;
      text != [] ==> !IsWhiteSpace(text[0]) && !IsWhiteSpace(text[|text| - 1])
  {
    WholeImageReadOnce(regions, frame, ocr);
    TextPartsSpec(regions, frame, ocr);
  }

  /** The whole image is read exactly once when no region produced text, and never otherwise. */
  lemma {:induction false} WholeImageReadOnce(regions: seq<SegmentedRegion>, frame: Frame, ocr: OcrCall -> string)
    requires Croppable(regions, frame)
    ensures multiset(OcrCalls(regions, frame, ocr))[WholeImageRead] == if RegionTexts(regions, frame, ocr) == [] then 1 else 0
  {
    RoutingSpec(regions, frame, ocr);
    assert multiset(RegionCalls(regions, frame))[WholeImageRead] == 0;
  }

  /** Every text part is non-blank; the text is trimmed, and empty when there are no parts. */
  lemma {:induction false} TextPartsSpec(regions: seq<SegmentedRegion>, frame: Frame, ocr: OcrCall -> string)
    requires Croppable(regions, frame)
    ensures forall t :: t in TextParts(regions, frame, ocr) ==> !IsBlank(t)
    ensures TextParts(regions, frame, ocr) == [] ==> Processed(regions, frame, ocr).ocrText == []
    ensures var text := Processed(regions, frame, ocr).ocrText;
      text != [] ==> !IsWhiteSpace(text[0]) && !IsWhiteSpace(text[|text| - 1])
  {
    RoutingSpec(regions, frame, ocr);
  }

  /** Photo regions only: their crops are exactly the photos, in order. */
  lemma {:induction false} PhotosOfAllPhotos(regions: seq<SegmentedRegion>, frame: Frame, ocr: OcrCall -> string)
    requires Croppable(regions, frame)
    requires forall r :: r in regions ==> r.kind == Photo
    ensures |PhotosOf(regions, frame)| == |regions|
    ensures forall k :: 0 <= k < |regions| ==> PhotosOf(regions, frame)[k] == Crop(regions[k], frame).value
    ensures RegionCalls(regions, frame) == [] && RegionTexts(regions, frame, ocr) == []
    decreases |regions|
  {
    if regions != [] {
      var init := regions[..|regions| - 1];
      assert forall k :: 0 <= k < |init| ==> init[k] == regions[k];
      assert forall r :: r in init ==> r in regions;
      PhotosOfAllPhotos(init, frame, ocr);
    }
  }

  /**
   * Since segmentation yields only photo regions, a capture gives one photo per region and
   * its text is always the trimmed text of one whole-image read.
   */
  lemma {:induction false} CaptureSpec(frame: Frame, contours: seq<Contour>, ocr: OcrCall -> string)
    requires Croppable(Segmented(frame, contours), frame)
    ensures var regions := Segmented(frame, contours);
      && |Processed(regions, frame, ocr).photos| == |regions|
      && OcrCalls(regions, frame, ocr) == [WholeImageRead]
      && Processed(regions, frame, ocr).ocrText == Trim(ocr(WholeImageRead))
  {
    var regions := Segmented(frame, contours);
    SegmentedSpec(frame, contours);
    PhotosOfAllPhotos(regions, frame, ocr);
    var whole := ocr(WholeImageRead);
    if IsBlank(whole) {
      assert Trim(whole) == [];
    }
  }

  /**
   * The region loop of `ProcessAsync`: photo crops are kept, every other crop is read by OCR and its
   * non-blank text kept. `ok` is false when a region cannot be cropped.
   */
  method Route(regions: seq<SegmentedRegion>, frame: Frame, ocr: OcrCall -> string)
    returns (ok: bool, photos: seq<IntRect>, textParts: seq<string>, calls: seq<OcrCall>)
    ensures ok <==> Croppable(regions, frame)
    ensures ok ==>
      && photos == PhotosOf(regions, frame)
      && textParts == RegionTexts(regions, frame, ocr)
      && calls == RegionCalls(regions, frame)
  {
    photos, textParts, calls := [], [], [];
    for k := 0 to |regions|
      invariant Croppable(regions[..k], frame)
      invariant photos == PhotosOf(regions[..k], frame)
      invariant textParts == RegionTexts(regions[..k], frame, ocr)
      invariant calls == RegionCalls(regions[..k], frame)
    {
      var region := regions[k];
      var padded := PadRegion(region.bounds, frame.width, frame.height, Padding);
      if padded.None? {
        assert Crop(regions[k], frame).None?;
        return false, photos, textParts, calls;
      }
      var cropped := ToRect(padded.value);
      assert regions[..k + 1] == regions[..k] + [region];
      if region.kind == Photo {
        photos := photos + [cropped];
      } else {
        calls := calls + [RegionRead(cropped)];
        var text := ocr(RegionRead(cropped));
        if !IsBlank(text) {
          textParts := textParts + [text];
        }
      }
    }
    assert regions[..|regions|] == regions;
    ok := true;
  }

  /** `ProcessAsync`: `None` when cropping a region fails; `calls` records each OCR call in order. */
  method Process(frame: Frame, contours: seq<Contour>, ocr: OcrCall -> string) returns (result: Option<ProcessedResult>, calls: seq<OcrCall>)
    ensures result.None? <==> !Croppable(Segmented(frame, contours), frame)
    ensures result.Some? ==>
      && result.value == Processed(Segmented(frame, contours), frame, ocr)
      && calls == OcrCalls(Segmented(frame, contours), frame, ocr)
  {
    var regions := Segment(frame, contours);
    var ok, photos, textParts;
    ok, photos, textParts, calls := Route(regions, frame, ocr);
    if !ok {
      return None, calls;
    }
    if |textParts| == 0 {
      calls := calls + [WholeImageRead];
      var text := ocr(WholeImageRead);
      if !IsBlank(text) {
        textParts := textParts + [text];
      }
    }
    assert textParts == TextParts(regions, frame, ocr);
    var combined := Trim(Join(textParts, NewLine + NewLine));
    result := Some(ProcessedResult(photos, combined));
  }
}

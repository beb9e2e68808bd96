/** `BirdDetector` of `birdcctv/detector.py`: the allow-list, the frame
    resizing rule and the loop of `detect` that turns the model's raw boxes
    into detections. The YOLO model itself is an oracle: its answer for a
    frame is an `Inference` value handed in by the caller. */
module Detector {
  import opened Outcomes
  import opened Text
  import opened Numerals
  import opened Images
  import opened Gathering

  /** One reported object; `name` is the source's `label` and keeps the case
      the model used. */
  datatype Detection = Detection(name: string, confidence: real, bbox: BBox)

  /** The configuration a `BirdDetector` keeps after construction. */
  datatype BirdDetector = BirdDetector(allowed: set<string>, minConfidence: real, frameWidth: Option<int>)

  /** `BirdDetector.__init__` without loading the model: the allow-list is the
      set of lower-cased configured labels. */
  function NewDetector(labels: seq<string>, minConfidence: real, frameWidth: Option<int>): (d: BirdDetector)
    ensures forall l :: l in labels ==> Lower(l) in d.allowed
    ensures forall a :: a in d.allowed ==> exists l :: l in labels && Lower(l) == a
    ensures forall a :: a in d.allowed ==> IsLower(a)
    ensures d.minConfidence == minConfidence && d.frameWidth == frameWidth
  {
    BirdDetector(set l | l in labels :: Lower(l), minConfidence, frameWidth)
  }

  /** Configuring labels in any mix of cases gives the same allow-list. */
  lemma AllowListIgnoresCase(labels: seq<string>, minConfidence: real, frameWidth: Option<int>)
    ensures var lowered := seq(|labels|, i requires 0 <= i < |labels| => Lower(labels[i]));
      NewDetector(lowered, minConfidence, frameWidth) == NewDetector(labels, minConfidence, frameWidth)
  {
    var lowered := seq(|labels|, i requires 0 <= i < |labels| => Lower(labels[i]));
    forall l | l in lowered ensures Lower(l) in NewDetector(labels, minConfidence, frameWidth).allowed {
      var i :| 0 <= i < |labels| && lowered[i] == l;
      LowerIdempotent(labels[i]);
    }
    forall l | l in labels ensures Lower(l) in NewDetector(lowered, minConfidence, frameWidth).allowed {
      var i :| 0 <= i < |labels| && labels[i] == l;
      LowerIdempotent(labels[i]);
      assert lowered[i] in lowered;
    }
  }

  /** Python's `int(x)` on a float: truncation toward zero. */
  function Trunc(x: real): (n: int)
    ensures x >= 0.0 ==> n >= 0 && n as real <= x < n as real + 1.0
    ensures x < 0.0 ==> n <= 0 && n as real - 1.0 < x <= n as real
  {
    if x >= 0.0 then x.Floor else -((-x).Floor)
  }

  /** Whether `_prepare_frame` resizes: a width is configured (and non-zero)
      and the frame's width differs from it. */
  predicate NeedsResize(d: BirdDetector, frame: Frame) {
    d.frameWidth.Some? && d.frameWidth.value != 0 && frame.width != d.frameWidth.value
  }

  lemma ScaledHeightPositive(h: nat, target: int, w: nat)
    requires w > 0 && target > 0 && h * target >= w
    ensures h as real * (target as real / w as real) >= 1.0
  {
    assert h as real * (target as real / w as real) == (h * target) as real / w as real;
    assert (h * target) as real >= w as real;
  }

  /** `_prepare_frame`: scale to the configured width, keeping the aspect ratio
      with a truncated height. `None` is a raised exception: a zero-width frame
      divides by zero and `cv2.resize` rejects a non-positive target size. */
  function PrepareFrame(d: BirdDetector, frame: Frame): (r: Option<Frame>)
    ensures !NeedsResize(d, frame) ==> r == Some(frame)
    ensures NeedsResize(d, frame) && r.Some? ==>
      && r.value.width == d.frameWidth.value
      && r.value.height > 0
      && r.value == frame.(width := r.value.width, height := r.value.height)
    ensures NeedsResize(d, frame) && frame.width > 0 && d.frameWidth.value > 0 && frame.height * d.frameWidth.value >= frame.width ==> r.Some?
  {
    if !NeedsResize(d, frame) then Some(frame)
    else if frame.width == 0 then None
    else
      var target := d.frameWidth.value;
      var height := Trunc(frame.height as real * (target as real / frame.width as real));
      assert target > 0 && frame.height * target >= frame.width ==> height >= 1 by {
        if target > 0 && frame.height * target >= frame.width {
          ScaledHeightPositive(frame.height, target, frame.width);
        }
      }
      if target <= 0 || height <= 0 then None
      else Some(frame.(width := target, height := height))
  }

  /** One entry of `results.boxes`: class and confidence tensors may be
      missing; the corners are floats. */
  datatype RawBox = RawBox(cls: Option<real>, conf: Option<real>, x1: real, y1: real, x2: real, y2: real)

  /** The model's answer for one frame: it raised, or it produced boxes and
      possibly a class-name table. */
  datatype Inference = InferenceRaised | Inferred(names: Option<map<int, string>>, boxes: seq<RawBox>)

  /** The class id of a box: the class truncated toward zero, `-1` when the
      class is missing. */
  function ClassId(b: RawBox): (id: int)
    ensures b.cls.None? ==> id == -1
    ensures b.cls.Some? && b.cls.value >= 0.0 ==> 0 <= id && id as real <= b.cls.value < id as real + 1.0
    ensures b.cls.Some? && b.cls.value < 0.0 ==> id <= 0 && id as real - 1.0 < b.cls.value <= id as real
  {
    if b.cls.Some? then Trunc(b.cls.value) else -1
  }

  /** The name of a class id, its decimal spelling when there is no name. */
  function LabelOf(names: Option<map<int, string>>, id: int): (l: string)
    ensures names.Some? && id in names.value ==> l == names.value[id]
  {
    if names.Some? && id in names.value then names.value[id] else IntToString(id)
  }

  /** A box without a class reads as class `-1`, and a class without a name is
      labelled with its decimal spelling, which reads back as the id. */
  lemma UnnamedClassLabel(names: Option<map<int, string>>, b: RawBox)
    requires names.None? || ClassId(b) !in names.value
    ensures ParseIntText(LabelOf(names, ClassId(b))) == Some(ClassId(b))
    ensures b.cls.None? ==> LabelOf(names, ClassId(b)) == "-1"
  {
    ParseIntRoundTrip(ClassId(b));
    assert LabelOf(names, ClassId(b)) == IntToString(ClassId(b));
    if b.cls.None? {
      assert IntToString(-1) == "-" + NatToDigits(1);
    }
  }

  /** The confidence of a box, `0.0` when missing. */
  function ConfidenceOf(b: RawBox): (c: real)
    ensures b.conf.Some? ==> c == b.conf.value
    ensures b.conf.None? ==> c == 0.0
  {
    b.conf.GetOr(0.0)
  }

  /** The two tests of the loop: an allow-listed label (compared in lower case)
      and a confidence at or above the threshold. A box without a confidence
      passes only a threshold of zero or below. */
  predicate Accepts(d: BirdDetector, names: Option<map<int, string>>, b: RawBox) {
    Lower(LabelOf(names, ClassId(b))) in d.allowed && ConfidenceOf(b) >= d.minConfidence
  }

  /** The label test ignores case: a label is accepted exactly when one of the
      configured labels equals it up to case, and it is rejected when its
      confidence is below the threshold. */
  lemma AcceptsConfiguredLabel(labels: seq<string>, minConfidence: real, frameWidth: Option<int>,
                               names: Option<map<int, string>>, b: RawBox)
    ensures var d := NewDetector(labels, minConfidence, frameWidth);
      Accepts(d, names, b) <==>
        (exists l :: l in labels && Lower(l) == Lower(LabelOf(names, ClassId(b)))) && ConfidenceOf(b) >= minConfidence
  {
  }

  predicate InFrame(box: BBox, width: int, height: int) {
    0 <= box.x1 && 0 <= box.y1 && box.x2 <= width && box.y2 <= height
  }

  function Max(a: int, b: int): int { if a >= b then a else b }

  function Min(a: int, b: int): int { if a <= b then a else b }

  /** The truncated corners clamped to the frame, one side each: `x2 < x1` can
      survive. */
  function Clamp(b: RawBox, width: int, height: int): (box: BBox)
    ensures InFrame(box, width, height)
    ensures 0 <= Trunc(b.x1) ==> box.x1 == Trunc(b.x1)
    ensures 0 <= Trunc(b.y1) ==> box.y1 == Trunc(b.y1)
    ensures Trunc(b.x2) <= width ==> box.x2 == Trunc(b.x2)
    ensures Trunc(b.y2) <= height ==> box.y2 == Trunc(b.y2)
    ensures Trunc(b.x1) < 0 ==> box.x1 == 0
    ensures Trunc(b.y1) < 0 ==> box.y1 == 0
    ensures Trunc(b.x2) > width ==> box.x2 == width
    ensures Trunc(b.y2) > height ==> box.y2 == height
  {
    BBox(Max(0, Trunc(b.x1)), Max(0, Trunc(b.y1)), Min(width, Trunc(b.x2)), Min(height, Trunc(b.y2)))
  }

  function ToDetection(names: Option<map<int, string>>, b: RawBox, width: int, height: int): Detection {
    Detection(LabelOf(names, ClassId(b)), ConfidenceOf(b), Clamp(b, width, height))
  }

  /** A detection the loop may emit: allow-listed, confident enough, inside the
      frame. */
  predicate Admissible(d: BirdDetector, det: Detection, width: int, height: int) {
    Lower(det.name) in d.allowed && det.confidence >= d.minConfidence && InFrame(det.bbox, width, height)
  }

  /** What one iteration of the loop appends: the box's detection when the box
      is accepted, nothing otherwise. */
  function Emit(d: BirdDetector, names: Option<map<int, string>>, b: RawBox, width: int, height: int): (r: seq<Detection>)
    ensures |r| <= 1
    ensures |r| == 1 <==> Accepts(d, names, b)
    ensures forall k :: 0 <= k < |r| ==> Admissible(d, r[k], width, height)
  {
    if Accepts(d, names, b) then [ToDetection(names, b, width, height)] else []
  }

  /** The `for box in results.boxes` loop of `detect`. */
  function Collect(d: BirdDetector, names: Option<map<int, string>>, boxes: seq<RawBox>, width: int, height: int): (r: seq<Detection>)
    ensures |r| <= |boxes|
    ensures forall k :: 0 <= k < |r| ==> Admissible(d, r[k], width, height)
    decreases |boxes|
  {
    if boxes == [] then []
    else
      var n := |boxes| - 1;
      Collect(d, names, boxes[..n], width, height) + Emit(d, names, boxes[n], width, height)
  }

  /** The loop gathers what `Emit` gives for each box. */
  lemma {:induction false} CollectGathers(d: BirdDetector, names: Option<map<int, string>>, boxes: seq<RawBox>, width: int, height: int)
    ensures Collect(d, names, boxes, width, height) == Gather(b => Emit(d, names, b, width, height), boxes)
    decreases |boxes|
  {
    if boxes != [] {
      CollectGathers(d, names, boxes[..|boxes| - 1], width, height);
    }
  }

  /** Filtering distributes over concatenation. */
  lemma CollectAppend(d: BirdDetector, names: Option<map<int, string>>, xs: seq<RawBox>, ys: seq<RawBox>, width: int, height: int)
    ensures Collect(d, names, xs + ys, width, height) == Collect(d, names, xs, width, height) + Collect(d, names, ys, width, height)
  {
    CollectGathers(d, names, xs + ys, width, height);
    CollectGathers(d, names, xs, width, height);
    CollectGathers(d, names, ys, width, height);
    GatherAppend(b => Emit(d, names, b, width, height), xs, ys);
  }

  /** A rejected box (an unlisted label such as "pigeon" when only "bird" is
      allowed, or a low confidence) leaves the result exactly as if it had not
      been reported. */
  lemma RejectedBoxLeavesNoTrace(d: BirdDetector, names: Option<map<int, string>>, xs: seq<RawBox>, b: RawBox, ys: seq<RawBox>, width: int, height: int)
    requires !Accepts(d, names, b)
    ensures Collect(d, names, xs + [b] + ys, width, height) == Collect(d, names, xs + ys, width, height)
  {
    var none := Collect(d, names, [b], width, height);
    assert none == [] by {
      assert [b][..0] == [];
      assert Emit(d, names, b, width, height) == [];
    }
    assert Collect(d, names, xs + [b], width, height) == Collect(d, names, xs, width, height) by {
      CollectAppend(d, names, xs, [b], width, height);
      assert Collect(d, names, xs, width, height) + none == Collect(d, names, xs, width, height);
    }
    CollectAppend(d, names, xs + [b], ys, width, height);
    CollectAppend(d, names, xs, ys, width, height);
  }

  /** `origin` lists, in increasing order, the indices of exactly the accepted
      boxes, and detection `k` is made from box `origin[k]`. */
  predicate SelectedFrom(d: BirdDetector, names: Option<map<int, string>>, boxes: seq<RawBox>, width: int, height: int,
                         dets: seq<Detection>, origin: seq<nat>)
  {
    && |origin| == |dets|
    && (forall k :: 0 <= k < |origin| ==> origin[k] < |boxes| && Accepts(d, names, boxes[origin[k]]))
    && (forall k :: 0 <= k < |origin| ==> dets[k] == ToDetection(names, boxes[origin[k]], width, height))
    && (forall j, k :: 0 <= j < k < |origin| ==> origin[j] < origin[k])
    && (forall i :: 0 <= i < |boxes| && Accepts(d, names, boxes[i]) ==> i in origin)
  }

  /** The output is an order-preserving selection of the boxes: one detection
      per accepted box, in box order, and none for any other box. */
  lemma CollectOrigins(d: BirdDetector, names: Option<map<int, string>>, boxes: seq<RawBox>, width: int, height: int)
    returns (origin: seq<nat>)
    ensures SelectedFrom(d, names, boxes, width, height, Collect(d, names, boxes, width, height), origin)
  {
    var emit := b => Emit(d, names, b, width, height);
    var dets := Collect(d, names, boxes, width, height);
    CollectGathers(d, names, boxes, width, height);
    origin := GatherPicks(emit, boxes);
    forall k | 0 <= k < |origin|
      ensures Accepts(d, names, boxes[origin[k]]) && dets[k] == ToDetection(names, boxes[origin[k]], width, height)
    {
      assert emit(boxes[origin[k]]) == [dets[k]];
    }
    forall i | 0 <= i < |boxes| && Accepts(d, names, boxes[i]) ensures i in origin {
      assert emit(boxes[i]) != [];
    }
  }

  /** Draws a rectangle and caption for each detection. */
  function Marks(dets: seq<Detection>): (r: seq<Overlay>)
    ensures |r| == |dets|
    ensures forall k :: 0 <= k < |r| ==> r[k] == Overlay(dets[k].bbox, dets[k].name)
  {
    if dets == [] then [] else [Overlay(dets[0].bbox, dets[0].name)] + Marks(dets[1..])
  }

  /** What `detect` does with a frame: it raises, or returns the annotated
      frame with its detections. */
  datatype DetectOutcome = DetectRaised | Annotated(frame: Frame, detections: seq<Detection>)

  /** `BirdDetector.detect`, given the model's answer for the prepared frame:
      it raises exactly when preparing the frame or the model raises;
      otherwise it returns the prepared frame with one mark per detection
      added, and the detections the loop collects from the model's boxes. */
  function Detect(d: BirdDetector, frame: Frame, inference: Inference): (r: DetectOutcome)
    ensures r.DetectRaised? <==> PrepareFrame(d, frame).None? || inference.InferenceRaised?
    ensures r.Annotated? ==>
      && PrepareFrame(d, frame) == Some(r.frame.(overlays := frame.overlays))
      && r.frame.overlays == frame.overlays + Marks(r.detections)
      && r.detections == Collect(d, inference.names, inference.boxes, r.frame.width, r.frame.height)
  {
    match PrepareFrame(d, frame)
    case None => DetectRaised
    case Some(prepared) =>
      match inference
      case InferenceRaised => DetectRaised
      case Inferred(names, boxes) =>
        var dets := Collect(d, names, boxes, prepared.width, prepared.height);
        Annotated(prepared.(overlays := prepared.overlays + Marks(dets)), dets)
  }

  /** Marks made for admissible detections carry allow-listed captions. */
  lemma MarksAllowed(d: BirdDetector, dets: seq<Detection>, width: int, height: int)
    requires forall k :: 0 <= k < |dets| ==> Admissible(d, dets[k], width, height)
    ensures forall k :: 0 <= k < |dets| ==> Lower(Marks(dets)[k].caption) in d.allowed
  {
  }

  /** Overlays added after `base` that are all allow-listed marks. */
  lemma AddedMarksAllowed(d: BirdDetector, base: seq<Overlay>, marks: seq<Overlay>, overlays: seq<Overlay>)
    requires overlays == base + marks
    requires forall k :: 0 <= k < |marks| ==> Lower(marks[k].caption) in d.allowed
    ensures forall k :: |base| <= k < |overlays| ==> Lower(overlays[k].caption) in d.allowed
  {
    forall k | |base| <= k < |overlays|
      ensures Lower(overlays[k].caption) in d.allowed
    {
      assert overlays[k] == marks[k - |base|];
    }
  }

  /** Every box drawn by `detect` carries an allow-listed label. */
  lemma DrawnLabelsAllowed(d: BirdDetector, frame: Frame, inference: Inference)
    requires Detect(d, frame, inference).Annotated?
    ensures var a := Detect(d, frame, inference).frame;
      forall k :: |frame.overlays| <= k < |a.overlays| ==> Lower(a.overlays[k].caption) in d.allowed
  {
    var r := Detect(d, frame, inference);
    MarksAllowed(d, r.detections, r.frame.width, r.frame.height);
    AddedMarksAllowed(d, frame.overlays, Marks(r.detections), r.frame.overlays);
  }
}

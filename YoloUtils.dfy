/** The detection pipeline of app/utils/yolo_utils.py. For one detector:
    its most confident box, the label it is reported under, the size of the
    box in millimetres, the severity colour against a per-condition
    threshold and the placement of the caption. Across the detectors of all
    body parts: the most confident result, or "normal". The detectors
    themselves are inputs: for each one, what it returned or that it raised. */
module YoloUtils {
  import opened Wrappers
  import opened Text

  /** `pixel_spacing_cm`: centimetres per pixel. */
  const PixelSpacingCm: real := 0.05
  /** The threshold used when the table has no entry. */
  const DefaultThreshold: real := 20.0
  const NormalLabel: string := "normal"
  /** Knee classes that are reported as grades of osteoarthritis. */
  const KneeGrades: set<string> := {"doubtful", "mild", "moderate"}
  const KneePrefix: string := "knee osteoarthritis ("

  /** `severity_thresholds`: per body part, the size in millimetres above
      which a condition is flagged. */
  const SeverityThresholds: map<string, map<string, real>> := map[
    "spine" := map[
      "surgical_implant" := 3.0,
      "spondylolisthesis" := 4.0,
      "other_lesion" := 5.0,
      "osteophytes" := 3.0,
      "foraminal_stenosis" := 3.0,
      "disc_space_narrowing" := 3.0,
      "vertebral_collapse" := 20.0,
      "scoliosis" := 10.0
    ],
    "knee" := map[
      "knee osteoarthritis (moderate)" := 3.0,
      "knee osteoarthritis (mild)" := 4.0,
      "knee osteoarthritis (doubtful)" := 5.0,
      "osteoporosis" := 3.0,
      "acl" := 2.0
    ],
    "heel" := map[
      "heel spur" := 5.0,
      "sever" := 3.0,
      "fractured" := 2.0
    ],
    "wrist" := map[
      "boneanomaly" := 3.0,
      "fracture" := 2.0,
      "metal" := 2.0,
      "periostealreaction" := 2.0,
      "pronatorsign" := 3.0,
      "softtissue" := 4.0
    ]
  ]

  datatype Box = Box(x1: int, y1: int, x2: int, y2: int) {
    function Width(): int { x2 - x1 }
    function Height(): int { y2 - y1 }
    /** `width**2 + height**2` */
    function DiagonalSq(): int { Width() * Width() + Height() * Height() }
  }

  /** One box as a detector reports it: class name, confidence, corners. */
  datatype Candidate = Candidate(cls: string, conf: real, box: Box)

  /** What `cv2.getTextSize` measures for the caption: width, height, baseline. */
  datatype TextSize = TextSize(w: nat, h: nat, baseline: nat)

  /** What running one detector on one image gives. */
  datatype ModelOutput =
    | Unreadable                                          // the image file could not be read
    | Raises                                              // the detector raised
    | Boxes(candidates: seq<Candidate>, captionSize: TextSize)

  /** OpenCV colours, blue-green-red. */
  datatype Bgr = Bgr(b: int, g: int, r: int)
  const Red: Bgr := Bgr(0, 0, 255)
  const Green: Bgr := Bgr(0, 255, 0)

  datatype Rect = Rect(x1: int, y1: int, x2: int, y2: int)

  /** What is drawn on the copy of the image: the caption rectangle filled
      in `color`, the caption in white at `textOrigin`, and the box outlined
      in `color`. `caption` is the caption's first line. */
  datatype Marking = Marking(box: Box, color: Bgr, labelRect: Rect, textOrigin: (int, int), caption: string)

  /** The image returned with a result: none (unreadable), as read, or marked. */
  datatype Picture = NoPicture | Unmarked | Marked(marking: Marking)

  /** The four values custom_yolo_annotate returns. */
  datatype Annotation = Annotation(labelText: string, picture: Picture, conf: real, bodyPart: string)

  // ---------------------------------------------------------------- one detector

  /** `severity_thresholds.get(body_part, {}).get(cls, 20.0)` */
  function Threshold(bodyPart: string, cls: string): (t: real)
    ensures t > 0.0
    ensures bodyPart !in SeverityThresholds || cls !in SeverityThresholds[bodyPart] ==> t == DefaultThreshold
    ensures bodyPart in SeverityThresholds && cls in SeverityThresholds[bodyPart] ==> t == SeverityThresholds[bodyPart][cls]
  {
    if bodyPart in SeverityThresholds && cls in SeverityThresholds[bodyPart]
    then SeverityThresholds[bodyPart][cls]
    else DefaultThreshold
  }

  /** The class a detector's box is reported under, before lower-casing: a
      knee grade is wrapped as `knee osteoarthritis (<class>)`, keeping the
      class's own case. */
  function PredictedClass(bodyPart: string, cls: string): (r: string)
    ensures r == cls || r == KneePrefix + cls + ")"
    ensures r != cls <==> bodyPart == "knee" && Lower(cls) in KneeGrades
  {
    if bodyPart == "knee" && Lower(cls) in KneeGrades then KneePrefix + cls + ")" else cls
  }

  /** The threshold is looked up before lower-casing: a knee grade the
      detector names with a capital misses its entry and falls back to the
      default, while the same grade in lower case finds it. */
  lemma ThresholdBeforeLowerCasing()
    ensures Threshold("knee", PredictedClass("knee", "mild")) == 4.0
    ensures Threshold("knee", PredictedClass("knee", "Mild")) == DefaultThreshold
  {
    assert Lower("mild") == "mild";
    assert Lower("Mild") == "mild";
    assert PredictedClass("knee", "mild") == "knee osteoarthritis (mild)";
    assert PredictedClass("knee", "Mild") == KneePrefix + "Mild" + ")";
    assert (KneePrefix + "Mild" + ")")[21] == 'M';
  }

  /** The reported label is the lower-cased class, wrapped as a knee grade
      exactly for knee detectors whose class is a grade in any case. */
  lemma {:induction false} ReportedLabel(bodyPart: string, cls: string)
    ensures Lower(PredictedClass(bodyPart, cls)) ==
      if bodyPart == "knee" && Lower(cls) in KneeGrades then KneePrefix + Lower(cls) + ")" else Lower(cls)
  {
    if bodyPart == "knee" && Lower(cls) in KneeGrades {
      KneePrefixHasNoCapital();
      assert IsLowerText(")") by {
        assert !IsUpper(')');
      }
      WrapLower(KneePrefix, cls, ")");
    }
  }

  /** Lower-casing text wrapped between two lower-case texts lower-cases the
      wrapped part only. */
  lemma WrapLower(p: string, s: string, q: string)
    requires IsLowerText(p) && IsLowerText(q)
    ensures Lower(p + s + q) == p + Lower(s) + q
  {
    var w := p + s + q;
    var r := p + Lower(s) + q;
    forall i | 0 <= i < |w| ensures Lower(w)[i] == r[i] {
      if i < |p| {
        assert w[i] == p[i];
      } else if i < |p| + |s| {
        assert w[i] == s[i - |p|];
      } else {
        assert w[i] == q[i - |p| - |s|];
      }
    }
  }

  lemma KneePrefixHasNoCapital()
    ensures IsLowerText(KneePrefix)
  {
    forall i | 0 <= i < |KneePrefix| ensures !IsUpper(KneePrefix[i]) {
      assert KneePrefix[i] in "knee osteoarthritis (";
    }
  }

  /** `s` is the size custom_yolo_annotate computes for `box`,
      `sqrt(width**2 + height**2) * pixel_spacing_cm * 10` millimetres,
      characterised without a square root. */
  ghost predicate IsSizeMm(box: Box, s: real) {
    var k := PixelSpacingCm * 10.0;
    s >= 0.0 && s * s == (box.DiagonalSq() as real) * k * k
  }

  /** `size_mm > threshold`, decided exactly on the squared diagonal. */
  predicate Exceeds(box: Box, threshold: real) {
    var k := PixelSpacingCm * 10.0;
    threshold < 0.0 || (box.DiagonalSq() as real) * k * k > threshold * threshold
  }

  /** The squared test agrees with comparing the size itself. */
  lemma ExceedsIffSizeAbove(box: Box, threshold: real, s: real)
    requires IsSizeMm(box, s)
    ensures Exceeds(box, threshold) <==> s > threshold
  {
    if threshold >= 0.0 {
      SquareMonotone(s, threshold);
    }
  }

  /** For non-negative numbers, comparing squares is comparing the numbers. */
  lemma SquareMonotone(a: real, b: real)
    requires a >= 0.0 && b >= 0.0
    ensures a > b <==> a * a > b * b
  {
    if a > b {
      assert a * a - b * b == (a - b) * (a + b);
      ProductPositive(a - b, a + b);
    } else {
      assert b * b - a * a == (b - a) * (b + a);
      ProductNonNegative(b - a, b + a);
    }
  }

  lemma ProductPositive(x: real, y: real)
    requires x > 0.0 && y > 0.0
    ensures x * y > 0.0
  {
  }

  lemma ProductNonNegative(x: real, y: real)
    requires x >= 0.0 && y >= 0.0
    ensures x * y >= 0.0
  {
  }

  /** A 40 by 30 pixel box measures 25 mm. */
  lemma SizeOf40By30()
    ensures IsSizeMm(Box(0, 0, 40, 30), 25.0)
  {
    assert Box(0, 0, 40, 30).DiagonalSq() == 2500;
    assert PixelSpacingCm * 10.0 == 0.5;
  }

  /** Where the caption rectangle goes: `text_w + 10` wide and
      `text_h + baseline + 10` high, ending 5 pixels above the box, or
      starting 5 pixels below it when it would cross the top of the image. */
  function LabelRect(box: Box, size: TextSize): (r: Rect)
    ensures r.x1 == box.x1 && r.x2 - r.x1 == size.w + 10
    ensures r.y2 - r.y1 == size.h + size.baseline + 10
    ensures r.y2 < box.y1 || box.y2 < r.y1
    ensures r.y1 >= 0 || box.y2 + 5 < 0
    ensures box.y1 - 5 - (size.h + size.baseline + 10) >= 0 ==> r.y2 == box.y1 - 5
    ensures box.y1 - 5 - (size.h + size.baseline + 10) < 0 ==> r.y1 == box.y2 + 5
  {
    var height := size.h + size.baseline + 10;
    var above := Rect(box.x1, box.y1 - 5 - height, box.x1 + size.w + 10, box.y1 - 5);
    if above.y1 < 0 then Rect(box.x1, box.y2 + 5, box.x1 + size.w + 10, box.y2 + 5 + height) else above
  }

  /** The index of the first of the greatest values (`argmax`). */
  function FirstMaxIndex(xs: seq<real>): (k: nat)
    requires |xs| > 0
    ensures k < |xs|
    ensures forall j :: 0 <= j < |xs| ==> xs[j] <= xs[k]
    ensures forall j :: 0 <= j < k ==> xs[j] < xs[k]
    decreases |xs|
  {
    if |xs| == 1 then 0
    else
      var k := FirstMaxIndex(xs[..|xs| - 1]);
      if xs[|xs| - 1] > xs[k] then |xs| - 1 else k
  }

  function Confidences(cs: seq<Candidate>): (confs: seq<real>)
    ensures |confs| == |cs| && forall j :: 0 <= j < |cs| ==> confs[j] == cs[j].conf
  {
    seq(|cs|, j requires 0 <= j < |cs| => cs[j].conf)
  }

  /** custom_yolo_annotate(image, model, body_part) for a detector that gave
      `output`; `None` where it raises. */
  function Annotate(bodyPart: string, output: ModelOutput): (r: Option<Annotation>)
    ensures r.None? <==> output.Raises?
    ensures r.Some? ==> r.value.bodyPart == bodyPart && IsLowerText(r.value.labelText)
    ensures output.Unreadable? ==> r == Some(Annotation(NormalLabel, NoPicture, 0.0, bodyPart))
    ensures output.Boxes? && output.candidates == [] ==> r == Some(Annotation(NormalLabel, Unmarked, 0.0, bodyPart))
    ensures output.Boxes? && output.candidates != [] ==>
      && r.value.picture.Marked?
      && (forall c :: c in output.candidates ==> c.conf <= r.value.conf)
      && (exists c :: c in output.candidates && c.conf == r.value.conf)
    ensures output.Boxes? && output.candidates != [] ==>
      var top := output.candidates[FirstMaxIndex(Confidences(output.candidates))];
      && r.value.labelText == Lower(PredictedClass(bodyPart, top.cls))
      && r.value.conf == top.conf
      && r.value.picture.marking.box == top.box
      && r.value.picture.marking.labelRect == LabelRect(top.box, output.captionSize)
      && r.value.picture.marking.caption == bodyPart + "-" + PredictedClass(bodyPart, top.cls)
  {
    match output
    case Unreadable => Some(Annotation(NormalLabel, NoPicture, 0.0, bodyPart))
    case Raises => None
    case Boxes(cs, size) =>
      if cs == [] then Some(Annotation(NormalLabel, Unmarked, 0.0, bodyPart))
      else
        var top := cs[FirstMaxIndex(Confidences(cs))];
        var cls := PredictedClass(bodyPart, top.cls);
        var color := if Exceeds(top.box, Threshold(bodyPart, cls)) then Red else Green;
        var rect := LabelRect(top.box, size);
        var marking := Marking(top.box, color, rect, (rect.x1 + 5, rect.y2 - 5), bodyPart + "-" + cls);
        LowerIsLowerText(cls);
        Some(Annotation(Lower(cls), Marked(marking), top.conf, bodyPart))
  }

  /** The box is drawn red exactly when its size exceeds the threshold of its
      body part and its class as reported before lower-casing (20 mm when the
      table has none), and green otherwise. */
  lemma RedIffAboveThreshold(bodyPart: string, cs: seq<Candidate>, size: TextSize, s: real)
    requires cs != []
    requires IsSizeMm(cs[FirstMaxIndex(Confidences(cs))].box, s)
    ensures var top := cs[FirstMaxIndex(Confidences(cs))];
      var m := Annotate(bodyPart, Boxes(cs, size)).value.picture.marking;
      && m.box == top.box
      && (m.color == Red <==> s > Threshold(bodyPart, PredictedClass(bodyPart, top.cls)))
      && (m.color == Red || m.color == Green)
  {
    var top := cs[FirstMaxIndex(Confidences(cs))];
    ExceedsIffSizeAbove(top.box, Threshold(bodyPart, PredictedClass(bodyPart, top.cls)), s);
  }

  // ---------------------------------------------------------------- all detectors

  /** One detector of the models dictionary, with what it gave for the image. */
  datatype Entry = Entry(bodyPart: string, output: ModelOutput)

  /** The result of detect_body_part: `(None, None, None, 0.0)`, or the body
      part, label, image and confidence of the chosen annotation. */
  datatype Detection = NotDetected | Detected(annotation: Annotation) {
    function Confidence(): real {
      if Detected? then annotation.conf else 0.0
    }
  }

  /** What each detector of the loop yields, in order; `None` where it raised. */
  function Outcomes(es: seq<Entry>): (os: seq<Option<Annotation>>)
    ensures |os| == |es|
    ensures forall j :: 0 <= j < |es| ==> os[j] == Annotate(es[j].bodyPart, es[j].output)
  {
    seq(|es|, j requires 0 <= j < |es| => Annotate(es[j].bodyPart, es[j].output))
  }

  /** The confidence an outcome competes with; a detector that raised has none. */
  function Score(o: Option<Annotation>): real {
    if o.Some? then o.value.conf else 0.0
  }

  function Scores(os: seq<Option<Annotation>>): (scores: seq<real>)
    ensures |scores| == |os| && forall j :: 0 <= j < |os| ==> scores[j] == Score(os[j])
  {
    seq(|os|, j requires 0 <= j < |os| => Score(os[j]))
  }

  /** One turn of the loop: a detector that raised is skipped, and a result
      replaces the best so far only when strictly more confident. */
  function Step(best: Detection, o: Option<Annotation>): Detection {
    match o
    case None => best
    case Some(a) => if a.conf > best.Confidence() then Detected(a) else best
  }

  /** The best result after the loop has seen all of `os`, in order. */
  function SelectBest(os: seq<Option<Annotation>>): (r: Detection)
    ensures r.Detected? ==> Some(r.annotation) in os
    decreases |os|
  {
    if os == [] then NotDetected else Step(SelectBest(os[..|os| - 1]), os[|os| - 1])
  }

  /** detect_body_part(image, models) */
  method DetectBodyPart(models: seq<Entry>) returns (best: Detection)
    ensures best == SelectBest(Outcomes(models))
  {
    ghost var outcomes := Outcomes(models);
    var bestConfidence: real := 0.0;
    best := NotDetected;
    var i := 0;
    while i < |models|
      invariant 0 <= i <= |models|
      invariant best == SelectBest(outcomes[..i])
      invariant bestConfidence == best.Confidence()
    {
      var result := Annotate(models[i].bodyPart, models[i].output);
      assert outcomes[..i + 1][..i] == outcomes[..i];
      assert result == outcomes[i];
      if result.Some? {
        var conf := result.value.conf;
        if conf > bestConfidence {
          bestConfidence := conf;
          best := Detected(result.value);
        }
      }
      i := i + 1;
    }
    assert outcomes[..i] == outcomes;
  }

  /** The best confidence is at least every score and never below zero, and a
      result is chosen only with a positive confidence. */
  lemma {:induction false} SelectBestBounds(os: seq<Option<Annotation>>)
    ensures SelectBest(os).Confidence() >= 0.0
    ensures forall j :: 0 <= j < |os| ==> Score(os[j]) <= SelectBest(os).Confidence()
    ensures SelectBest(os).Detected? ==> SelectBest(os).Confidence() > 0.0
    decreases |os|
  {
    if os != [] {
      var n := |os| - 1;
      var init := os[..n];
      SelectBestBounds(init);
      StepFacts(SelectBest(init), os[n]);
      assert SelectBest(os) == Step(SelectBest(init), os[n]);
      forall j | 0 <= j < |os| ensures Score(os[j]) <= SelectBest(os).Confidence() {
        if j < n {
          assert os[j] == init[j];
        }
      }
    }
  }

  /** One turn of the loop never lowers the best confidence, reaches at least
      the outcome's score, and either keeps the best so far or takes the
      outcome's annotation because it is strictly more confident. */
  lemma StepFacts(best: Detection, o: Option<Annotation>)
    requires best.Detected? ==> best.Confidence() > 0.0
    ensures Step(best, o).Detected? ==> Step(best, o).Confidence() > 0.0
    ensures Step(best, o).Confidence() >= best.Confidence()
    ensures Step(best, o).Confidence() >= Score(o)
    ensures Step(best, o) == best || (Score(o) > best.Confidence() && Step(best, o) == Detected(o.value))
  {
  }

  /** While every score is below `c`, so is the best confidence. */
  lemma {:induction false} SelectBestBelow(os: seq<Option<Annotation>>, c: real)
    requires c > 0.0
    requires forall j :: 0 <= j < |os| ==> Score(os[j]) < c
    ensures SelectBest(os).Confidence() < c
    decreases |os|
  {
    if os != [] {
      var init := os[..|os| - 1];
      assert forall j :: 0 <= j < |init| ==> init[j] == os[j];
      SelectBestBelow(init, c);
    }
  }

  /** Outcomes that score no more than the best so far do not change it. */
  lemma {:induction false} SelectBestKept(os: seq<Option<Annotation>>, n: nat)
    requires n <= |os|
    requires forall j :: n <= j < |os| ==> Score(os[j]) <= SelectBest(os[..n]).Confidence()
    ensures SelectBest(os) == SelectBest(os[..n])
    decreases |os|
  {
    if n < |os| {
      var init := os[..|os| - 1];
      assert init[..n] == os[..n];
      assert forall j :: n <= j < |init| ==> init[j] == os[j];
      SelectBestKept(init, n);
    } else {
      assert os[..n] == os;
    }
  }

  /** detect_body_part returns the annotation of the first detector with the
      greatest confidence when that confidence is positive, and "normal"
      otherwise: ties go to the detector that comes first. */
  lemma SelectBestIsFirstMaximum(os: seq<Option<Annotation>>)
    ensures SelectBest(os) ==
      if os != [] && Scores(os)[FirstMaxIndex(Scores(os))] > 0.0
      then Detected(os[FirstMaxIndex(Scores(os))].value)
      else NotDetected
  {
    if os != [] {
      var scores := Scores(os);
      var k := FirstMaxIndex(scores);
      var top := scores[k];
      assert forall j :: 0 <= j < |os| ==> Score(os[j]) <= top;
      if top > 0.0 {
        var before := os[..k];
        assert forall j :: 0 <= j < |before| ==> Score(before[j]) < top;
        SelectBestBelow(before, top);
        SelectBestBounds(before);
        StepFacts(SelectBest(before), os[k]);
        assert os[..k + 1][..k] == before;
        assert SelectBest(os[..k + 1]) == Step(SelectBest(before), os[k]);
        SelectBestKept(os, k + 1);
      } else {
        SelectBestKept(os, 0);
      }
    }
  }

  /** A detector that raised yields nothing. */
  lemma RaisingYieldsNothing(before: seq<Entry>, bodyPart: string, after: seq<Entry>)
    ensures Outcomes(before + [Entry(bodyPart, Raises)] + after) == Outcomes(before) + [None] + Outcomes(after)
    ensures Outcomes(before + after) == Outcomes(before) + Outcomes(after)
  {
  }

  /** A detector that raised changes nothing, wherever it stands in the order. */
  lemma RaisingDetectorIgnored(before: seq<Entry>, bodyPart: string, after: seq<Entry>)
    ensures SelectBest(Outcomes(before + [Entry(bodyPart, Raises)] + after)) == SelectBest(Outcomes(before + after))
  {
    RaisingYieldsNothing(before, bodyPart, after);
    SkippedNone(Outcomes(before), Outcomes(after));
  }

  /** An outcome `None` is skipped, wherever it stands. */
  lemma {:induction false} SkippedNone(before: seq<Option<Annotation>>, after: seq<Option<Annotation>>)
    ensures SelectBest(before + [None] + after) == SelectBest(before + after)
    decreases |after|
  {
    if after == [] {
      assert (before + [None] + after)[..|before|] == before;
      assert before + after == before;
    } else {
      var init := after[..|after| - 1];
      SkippedNone(before, init);
      assert (before + [None] + after)[..|before| + 1 + |init|] == before + [None] + init;
      assert (before + after)[..|before| + |init|] == before + init;
    }
  }
}

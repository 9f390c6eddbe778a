/** The label-to-text part of generate_pdf_report (app/utils/pdf_generator.py):
    for each selected image, in order, the numbered section title, the three
    headings and the three text blocks looked up in the templates. Page
    layout, fonts, images, the disclaimer and the symptoms table are not
    part of this model. */
module PdfReport {
  import opened Wrappers
  import opened Text
  import Config
  import YoloUtils

  /** One entry of `selected_images_info`. */
  datatype SelectedImage = SelectedImage(originalPath: string, annotatedPath: string, labelText: string)

  /** A section heading: "<kind> for Knee Osteoarthritis (<grade>):" naming
      a knee grade, or "<kind> for <label>:" naming the label itself. */
  datatype Heading = KneeGradeHeading(kind: string, grade: string) | LabelHeading(kind: string, subject: string) {
    /** The heading as printed, with Python's `title()` applied to the name. */
    function Printed(): string {
      match this
      case KneeGradeHeading(kind, grade) => kind + " for Knee Osteoarthritis (" + Title(grade) + "):"
      case LabelHeading(kind, subject) => kind + " for " + Title(subject) + ":"
    }
  }

  /** The text the report shows for one image; `number` is printed in the
      title "Output Xray image <number>:". */
  datatype Section = Section(
    number: nat,
    findingsHeading: Heading, findings: string,
    risksHeading: Heading, risks: string,
    testsHeading: Heading, tests: string)
  {
    function Caption(): string {
      "Output Xray image " + NatToString(number) + ":"
    }
  }

  /** The risks or tests heading of a label that starts with the knee prefix
      but does not end with ")" reads `base_label`, which no earlier image
      assigned: the report raises (and the request answers with an
      unexpected error). `index` is the position of that image. */
  datatype ReportError = UnboundBaseLabel(index: nat)

  /** The three text tables the report reads: `findings_template`,
      `risks_template` and `tests_template`. */
  datatype Templates = Templates(findings: map<string, string>, risks: map<string, string>, tests: map<string, string>)

  /** The tables of app/config.py. */
  function AppTemplates(): Templates {
    Templates(Config.FindingsTemplate, Config.RisksTemplate, Config.TestsTemplate)
  }

  const NoFindings: string := "No findings available"
  const NoRisks: string := "No risks available"
  const NoTests: string := "No tests available"

  /** The test of the findings branch: a knee grade label. */
  predicate IsKneeLabel(lbl: string) {
    StartsWith(lbl, YoloUtils.KneePrefix) && EndsWith(lbl, ")")
  }

  /** The test of the risks and tests headings: the prefix only. */
  predicate HasKneePrefix(lbl: string) {
    StartsWith(lbl, YoloUtils.KneePrefix)
  }

  /** `label[label.find('(')+1:label.find(')')].strip()` */
  function BaseLabel(lbl: string): string {
    Strip(PySlice(lbl, Find(lbl, '(') + 1, Find(lbl, ')')))
  }

  /** What the loop body reads off a label: the label itself, the test of
      the findings branch, the test of the risks and tests headings, and the
      grade parsed from between the parentheses (computed only for a full
      knee grade label, as `base_label` is). */
  datatype LabelInfo = LabelInfo(text: string, knee: bool, prefixed: bool, grade: string)

  /** The label tests of one image. */
  function Classify(lbl: string): (info: LabelInfo)
    ensures info.text == lbl
    ensures info.knee <==> IsKneeLabel(lbl)
    ensures info.prefixed <==> HasKneePrefix(lbl)
    ensures info.knee ==> info.grade == BaseLabel(lbl)
    ensures info.knee ==> info.prefixed
  {
    LabelInfo(lbl, IsKneeLabel(lbl), HasKneePrefix(lbl), if IsKneeLabel(lbl) then BaseLabel(lbl) else "")
  }

  /** The label tests of every selected image, in order. */
  function Infos(images: seq<SelectedImage>): (infos: seq<LabelInfo>)
    ensures |infos| == |images|
    ensures forall i :: 0 <= i < |images| ==> infos[i] == Classify(images[i].labelText)
  {
    seq(|images|, i requires 0 <= i < |images| => Classify(images[i].labelText))
  }

  /** The key the three text blocks of a classified label are looked up with. */
  function Key(info: LabelInfo): string {
    if info.knee then info.grade else info.text
  }

  /** The key of a label: its parsed grade for a full knee grade label, the
      label itself otherwise. */
  function LookupKey(lbl: string): (key: string)
    ensures IsKneeLabel(lbl) ==> key == BaseLabel(lbl)
    ensures !IsKneeLabel(lbl) ==> key == lbl
  {
    Key(Classify(lbl))
  }

  /** The value `base_label` holds after an image, given the value before. */
  function NextBase(info: LabelInfo, base: Option<string>): Option<string> {
    if info.knee then Some(info.grade) else base
  }

  /** A section shows the three texts stored under the key of its label,
      or the "No … available" defaults. */
  predicate TextsFor(t: Templates, sec: Section, info: LabelInfo) {
    && sec.findings == Config.Get(t.findings, Key(info), NoFindings)
    && sec.risks == Config.Get(t.risks, Key(info), NoRisks)
    && sec.tests == Config.Get(t.tests, Key(info), NoTests)
  }

  /** The section of the image at position `idx`, once `base_label` holds `next`. */
  function MakeSection(t: Templates, idx: nat, info: LabelInfo, next: Option<string>): (sec: Section)
    requires info.prefixed ==> next.Some?
    ensures sec.number == idx + 1
    ensures TextsFor(t, sec, info)
    ensures info.knee ==> sec.findingsHeading == KneeGradeHeading("Findings", info.grade)
    ensures !info.knee ==> sec.findingsHeading == LabelHeading("Findings", info.text)
    ensures info.prefixed ==>
      sec.risksHeading == KneeGradeHeading("Risks", next.value)
      && sec.testsHeading == KneeGradeHeading("Recommended Tests", next.value)
    ensures !info.prefixed ==>
      sec.risksHeading == LabelHeading("Risks", info.text)
      && sec.testsHeading == LabelHeading("Recommended Tests", info.text)
  {
    var key := Key(info);
    Section(idx + 1,
      if info.knee then KneeGradeHeading("Findings", info.grade) else LabelHeading("Findings", info.text),
      Config.Get(t.findings, key, NoFindings),
      if info.prefixed then KneeGradeHeading("Risks", next.value) else LabelHeading("Risks", info.text),
      Config.Get(t.risks, key, NoRisks),
      if info.prefixed then KneeGradeHeading("Recommended Tests", next.value)
      else LabelHeading("Recommended Tests", info.text),
      Config.Get(t.tests, key, NoTests))
  }

  /** One turn of the loop over the selected images: `base` is the value
      `base_label` holds from earlier turns (`None` while unassigned); the
      result carries the section and the value `base_label` holds after it. */
  function ResolveImage(t: Templates, idx: nat, info: LabelInfo, base: Option<string>): (r: Result<(Section, Option<string>), ReportError>)
    ensures r.Failure? <==> info.prefixed && !info.knee && base.None?
    ensures r.Failure? ==> r.error == UnboundBaseLabel(idx)
    ensures r.Success? ==>
      && r.value.1 == (if info.knee then Some(info.grade) else base)
      && r.value.0.number == idx + 1
      && TextsFor(t, r.value.0, info)
  {
    var next := NextBase(info, base);
    if info.prefixed && next.None? then Failure(UnboundBaseLabel(idx))
    else Success((MakeSection(t, idx, info, next), next))
  }

  /** The sections of the first |infos| turns and the final `base_label`,
      or the first failure. */
  function RenderState(t: Templates, infos: seq<LabelInfo>): Result<(seq<Section>, Option<string>), ReportError>
    decreases |infos|
  {
    if infos == [] then Success(([], None))
    else
      var prev := RenderState(t, infos[..|infos| - 1]);
      if prev.Failure? then prev
      else
        var step := ResolveImage(t, |infos| - 1, infos[|infos| - 1], prev.value.1);
        if step.Failure? then Failure(step.error)
        else Success((prev.value.0 + [step.value.0], step.value.1))
  }

  /** The per-image sections of the report, or the error that aborts it. */
  function Render(t: Templates, images: seq<SelectedImage>): Result<seq<Section>, ReportError> {
    var st := RenderState(t, Infos(images));
    if st.Failure? then Failure(st.error) else Success(st.value.0)
  }

  /** The loop `for idx, img_info in enumerate(selected_images_info)`. */
  method RenderSections(t: Templates, images: seq<SelectedImage>) returns (r: Result<seq<Section>, ReportError>)
    ensures r == Render(t, images)
  {
    ghost var infos := Infos(images);
    var sections: seq<Section> := [];
    var base: Option<string> := None;
    var idx := 0;
    while idx < |images|
      invariant 0 <= idx <= |images|
      invariant RenderState(t, infos[..idx]) == Success((sections, base))
    {
      assert infos[..idx + 1][..idx] == infos[..idx];
      var info := Classify(images[idx].labelText);
      assert info == infos[idx];
      var step := ResolveImage(t, idx, info, base);
      if step.Failure? {
        assert RenderState(t, infos[..idx + 1]) == Failure(step.error);
        ExtendFailure(t, infos, idx + 1);
        return Failure(step.error);
      }
      sections := sections + [step.value.0];
      base := step.value.1;
      idx := idx + 1;
    }
    assert infos[..idx] == infos;
    r := Success(sections);
  }

  /** A failure in the first `n` images fails the whole report with it. */
  lemma {:induction false} ExtendFailure(t: Templates, infos: seq<LabelInfo>, n: nat)
    requires n <= |infos| && RenderState(t, infos[..n]).Failure?
    ensures RenderState(t, infos) == RenderState(t, infos[..n])
    decreases |infos| - n
  {
    if n == |infos| {
      assert infos[..n] == infos;
    } else {
      var longer := infos[..n + 1];
      assert longer[..n] == infos[..n];
      assert RenderState(t, longer) == RenderState(t, infos[..n]);
      ExtendFailure(t, infos, n + 1);
    }
  }

  /** One section per selected image, in input order, numbered from 1; the
      three texts of each section are looked up with the key of its own
      label, whatever came before it (only the headings carry `base_label`). */
  lemma {:induction false} RenderOrder(t: Templates, infos: seq<LabelInfo>)
    ensures RenderState(t, infos).Success? ==>
      var secs := RenderState(t, infos).value.0;
      && |secs| == |infos|
      && forall i :: 0 <= i < |infos| ==> secs[i].number == i + 1 && TextsFor(t, secs[i], infos[i])
    decreases |infos|
  {
    if infos != [] {
      var n := |infos| - 1;
      var init := infos[..n];
      RenderOrder(t, init);
      var prev := RenderState(t, init);
      if prev.Success? {
        var step := ResolveImage(t, n, infos[n], prev.value.1);
        if step.Success? {
          var secs := prev.value.0 + [step.value.0];
          assert RenderState(t, infos) == Success((secs, step.value.1));
          forall i | 0 <= i < |infos| ensures secs[i].number == i + 1 && TextsFor(t, secs[i], infos[i]) {
            if i < n {
              assert secs[i] == prev.value.0[i] && infos[i] == init[i];
            }
          }
        }
      }
    }
  }

  /** A label that never reads `base_label` before a knee grade label has set
      it: either a full knee grade label or no knee prefix at all. */
  predicate SelfContained(info: LabelInfo) {
    info.knee || !info.prefixed
  }

  /** The section that a self-contained label yields on its own. */
  function SectionFor(t: Templates, idx: nat, info: LabelInfo): Section
    requires SelfContained(info)
  {
    ResolveImage(t, idx, info, None).value.0
  }

  /** When every label is self-contained the report succeeds and each
      section depends on its own label only, not on the images before it. */
  lemma {:induction false} RenderSelfContained(t: Templates, infos: seq<LabelInfo>)
    requires forall i :: 0 <= i < |infos| ==> SelfContained(infos[i])
    ensures RenderState(t, infos).Success?
    ensures |RenderState(t, infos).value.0| == |infos|
    ensures forall i :: 0 <= i < |infos| ==> RenderState(t, infos).value.0[i] == SectionFor(t, i, infos[i])
    decreases |infos|
  {
    if infos != [] {
      var last := |infos| - 1;
      var init := infos[..last];
      assert forall i :: 0 <= i < |init| ==> init[i] == infos[i];
      RenderSelfContained(t, init);
      var st := RenderState(t, init);
      ResolveIndependent(t, last, infos[last], st.value.1);
      var step := ResolveImage(t, last, infos[last], st.value.1);
      var secs := st.value.0 + [step.value.0];
      assert RenderState(t, infos) == Success((secs, step.value.1));
      forall i | 0 <= i < |infos| ensures secs[i] == SectionFor(t, i, infos[i]) {
        if i < last {
          assert secs[i] == st.value.0[i];
        } else {
          assert secs[i] == step.value.0;
        }
      }
    }
  }

  /** For a self-contained label the carried `base_label` makes no difference. */
  lemma ResolveIndependent(t: Templates, idx: nat, info: LabelInfo, base: Option<string>)
    requires SelfContained(info)
    ensures ResolveImage(t, idx, info, base).Success?
    ensures ResolveImage(t, idx, info, base).value.0 == ResolveImage(t, idx, info, None).value.0
  {
  }

  // ---------------------------------------------------------------- knee labels

  /** The characters of the knee prefix that the label parsing depends on. */
  lemma KneePrefixShape()
    ensures |YoloUtils.KneePrefix| == 21
    ensures YoloUtils.KneePrefix[20] == '('
    ensures forall i :: 0 <= i < 20 ==> YoloUtils.KneePrefix[i] != '('
    ensures ')' !in YoloUtils.KneePrefix
  {
    var p := YoloUtils.KneePrefix;
    forall i | 0 <= i < 20 ensures p[i] != '(' {
      assert p[i] in "knee osteoarthritis ";
    }
    forall i | 0 <= i < |p| ensures p[i] != ')' {
      assert p[i] in "knee osteoarthritis (";
    }
  }

  /** Parsing a knee grade label gives back the grade it wraps. */
  lemma KneeLabelBase(grade: string)
    requires forall k :: 0 <= k < |grade| ==> grade[k] != ')' && grade[k] != '(' && !IsStripSpace(grade[k])
    ensures IsKneeLabel(YoloUtils.KneePrefix + grade + ")")
    ensures BaseLabel(YoloUtils.KneePrefix + grade + ")") == grade
  {
    KneePrefixShape();
    WrappedBase(YoloUtils.KneePrefix, grade);
  }

  /** The same for any prefix of 21 characters that ends in its only "(" and
      has no ")". */
  lemma WrappedBase(p: string, grade: string)
    requires |p| == 21 && p[20] == '(' && ')' !in p
    requires forall i :: 0 <= i < 20 ==> p[i] != '('
    requires forall k :: 0 <= k < |grade| ==> grade[k] != ')' && grade[k] != '(' && !IsStripSpace(grade[k])
    ensures StartsWith(p + grade + ")", p) && EndsWith(p + grade + ")", ")")
    ensures BaseLabel(p + grade + ")") == grade
  {
    var lbl := p + grade + ")";
    assert lbl[..|p|] == p;
    assert lbl[|lbl| - 1..] == ")";
    assert lbl[..20] == p[..20];
    FindFirst(lbl, '(', 20);
    assert lbl[..21 + |grade|] == p + grade;
    FindFirst(lbl, ')', 21 + |grade|);
    assert lbl[21..21 + |grade|] == grade;
    StripOfUnspaced(grade);
  }

  /** `find` gives the position of the first occurrence. */
  lemma FindFirst(s: string, c: char, k: nat)
    requires k < |s| && s[k] == c && c !in s[..k]
    ensures Find(s, c) == k
  {
  }

  lemma StripOfUnspaced(s: string)
    requires forall k :: 0 <= k < |s| ==> !IsStripSpace(s[k])
    ensures Strip(s) == s
  {
  }

  /** The three knee grades are plain words. */
  lemma KneeGradesAreWords(g: string)
    requires g in YoloUtils.KneeGrades
    ensures forall k :: 0 <= k < |g| ==> g[k] != ')' && g[k] != '(' && !IsStripSpace(g[k])
  {
    if g == "doubtful" {
      forall k | 0 <= k < |g| ensures g[k] != ')' && g[k] != '(' && !IsStripSpace(g[k]) {
        assert g[k] in "doubtful";
      }
    } else if g == "mild" {
      forall k | 0 <= k < |g| ensures g[k] != ')' && g[k] != '(' && !IsStripSpace(g[k]) {
        assert g[k] in "mild";
      }
    } else {
      forall k | 0 <= k < |g| ensures g[k] != ')' && g[k] != '(' && !IsStripSpace(g[k]) {
        assert g[k] in "moderate";
      }
    }
  }

  /** The label the detector reports for a knee grade (for example
      "knee osteoarthritis (mild)") is resolved in the report to the bare
      grade's entries of the three templates, which all exist, and its
      findings heading names the grade. */
  lemma KneeGradeResolves(t: Templates, cls: string, idx: nat, base: Option<string>)
    requires Lower(cls) in YoloUtils.KneeGrades
    requires YoloUtils.KneeGrades <= t.findings.Keys * t.risks.Keys * t.tests.Keys
    ensures var info := Classify(Lower(YoloUtils.PredictedClass("knee", cls)));
      var g := Lower(cls);
      && info.knee && info.grade == g
      && ResolveImage(t, idx, info, base).Success?
      && ResolveImage(t, idx, info, base).value.0.findings == t.findings[g]
      && ResolveImage(t, idx, info, base).value.0.risks == t.risks[g]
      && ResolveImage(t, idx, info, base).value.0.tests == t.tests[g]
      && ResolveImage(t, idx, info, base).value.0.findingsHeading == KneeGradeHeading("Findings", g)
  {
    var g := Lower(cls);
    var lbl := Lower(YoloUtils.PredictedClass("knee", cls));
    YoloUtils.ReportedLabel("knee", cls);
    assert lbl == YoloUtils.KneePrefix + g + ")";
    KneeGradesAreWords(g);
    KneeLabelBase(g);
    var info := Classify(lbl);
    assert info.knee && info.grade == g;
    var sec := MakeSection(t, idx, info, Some(g));
    assert ResolveImage(t, idx, info, base) == Success((sec, Some(g)));
  }

  // ---------------------------------------------------------------- the prefix-only headings

  /** Position `j` holds the last knee grade label among the first `i` images. */
  predicate LastKneeBefore(infos: seq<LabelInfo>, j: int, i: int) {
    0 <= j < i <= |infos| && infos[j].knee && forall k :: j < k < i ==> !infos[k].knee
  }

  /** No knee grade label among the first `i` images. */
  predicate NoKneeBefore(infos: seq<LabelInfo>, i: nat)
    requires i <= |infos|
  {
    forall k :: 0 <= k < i ==> !infos[k].knee
  }

  /** The image at position `n` reads `base_label` before any image has
      assigned it: a label with the knee prefix only, and no knee grade label
      before it. */
  predicate Unbound(infos: seq<LabelInfo>, n: int) {
    0 <= n < |infos| && infos[n].prefixed && !infos[n].knee && NoKneeBefore(infos, n)
  }

  /** The value `base_label` holds after the images `infos`. */
  function BaseAfter(infos: seq<LabelInfo>): Option<string>
    decreases |infos|
  {
    if infos == [] then None
    else NextBase(infos[|infos| - 1], BaseAfter(infos[..|infos| - 1]))
  }

  /** A successful run carries `BaseAfter` from turn to turn. */
  lemma {:induction false} RenderBase(t: Templates, infos: seq<LabelInfo>)
    ensures RenderState(t, infos).Success? ==> RenderState(t, infos).value.1 == BaseAfter(infos)
    decreases |infos|
  {
    if infos != [] {
      RenderBase(t, infos[..|infos| - 1]);
    }
  }

  /** `base_label` is unassigned exactly when no knee grade label occurred,
      and otherwise holds the grade of the last one. */
  lemma {:induction false} BaseAfterLastKnee(infos: seq<LabelInfo>)
    ensures BaseAfter(infos).None? <==> NoKneeBefore(infos, |infos|)
    ensures forall j :: LastKneeBefore(infos, j, |infos|) ==> BaseAfter(infos) == Some(infos[j].grade)
    decreases |infos|
  {
    if infos != [] {
      BaseAfterLastKnee(infos[..|infos| - 1]);
      LastKneeSnoc(infos);
    }
  }

  /** After a successful run over `infos`, `base_label` is unassigned exactly
      when no knee grade label occurred, and otherwise holds the grade of the
      last one. */
  lemma RenderCarriesLastGrade(t: Templates, infos: seq<LabelInfo>)
    ensures RenderState(t, infos).Success? ==>
      && (RenderState(t, infos).value.1.None? <==> NoKneeBefore(infos, |infos|))
      && forall j :: LastKneeBefore(infos, j, |infos|) ==> RenderState(t, infos).value.1 == Some(infos[j].grade)
  {
    RenderBase(t, infos);
    BaseAfterLastKnee(infos);
  }

  /** How one more image changes the last knee grade label. */
  lemma LastKneeSnoc(infos: seq<LabelInfo>)
    requires |infos| > 0
    ensures var last := |infos| - 1;
      && (infos[last].knee ==> forall j :: LastKneeBefore(infos, j, |infos|) ==> j == last)
      && (!infos[last].knee ==>
        && (NoKneeBefore(infos, |infos|) <==> NoKneeBefore(infos[..last], last))
        && forall j :: LastKneeBefore(infos, j, |infos|) ==> LastKneeBefore(infos[..last], j, last))
  {
    var last := |infos| - 1;
    var init := infos[..last];
    assert forall k :: 0 <= k < last ==> init[k] == infos[k];
  }

  /** The report fails exactly when some image reads `base_label` while it is
      unassigned, and the error names the first such image. */
  lemma {:induction false} RenderFailsAtFirstUnbound(t: Templates, infos: seq<LabelInfo>)
    ensures RenderState(t, infos).Failure? <==> exists n :: Unbound(infos, n)
    ensures RenderState(t, infos).Failure? ==>
      && Unbound(infos, RenderState(t, infos).error.index)
      && forall m :: 0 <= m < RenderState(t, infos).error.index ==> !Unbound(infos, m)
    decreases |infos|
  {
    if infos != [] {
      var last := |infos| - 1;
      var init := infos[..last];
      RenderFailsAtFirstUnbound(t, init);
      RenderCarriesLastGrade(t, init);
      assert forall k :: 0 <= k < last ==> init[k] == infos[k];
      forall m | 0 <= m < last ensures Unbound(init, m) <==> Unbound(infos, m) {
        assert NoKneeBefore(init, m) <==> NoKneeBefore(infos, m);
      }
      var prev := RenderState(t, init);
      if prev.Failure? {
        assert RenderState(t, infos) == prev;
      } else {
        var step := ResolveImage(t, last, infos[last], prev.value.1);
        assert NoKneeBefore(infos, last) <==> NoKneeBefore(init, last);
        if step.Failure? {
          assert Unbound(infos, last);
          assert RenderState(t, infos) == Failure(UnboundBaseLabel(last));
        } else {
          assert RenderState(t, infos) == Success((prev.value.0 + [step.value.0], step.value.1));
          assert !Unbound(infos, last);
          assert forall n :: 0 <= n < last ==> !Unbound(infos, n);
        }
      }
    }
  }

  /** The three headings of the section at position `i`, by the two tests of
      the source: the findings heading names the grade of a knee grade label
      and the label itself otherwise; the risks and tests headings name the
      label itself when it lacks the knee prefix, and otherwise the grade of
      the last knee grade label up to and including this one (`base_label`). */
  predicate Headed(infos: seq<LabelInfo>, i: nat, sec: Section)
    requires i < |infos|
  {
    var info := infos[i];
    && sec.findingsHeading ==
      (if info.knee then KneeGradeHeading("Findings", info.grade) else LabelHeading("Findings", info.text))
    && (!info.prefixed ==>
      && sec.risksHeading == LabelHeading("Risks", info.text)
      && sec.testsHeading == LabelHeading("Recommended Tests", info.text))
    && (info.prefixed ==>
      forall j :: 0 <= j <= i && LastKneeBefore(infos, j, i + 1) ==>
        && sec.risksHeading == KneeGradeHeading("Risks", infos[j].grade)
        && sec.testsHeading == KneeGradeHeading("Recommended Tests", infos[j].grade))
  }

  /** The last knee grade label before position `i` is found among the
      images up to `i`. */
  lemma LastKneeBeforePrefix(infos: seq<LabelInfo>, init: seq<LabelInfo>, j: int, i: int)
    requires |init| <= |infos| && init == infos[..|init|] && i <= |init|
    ensures LastKneeBefore(infos, j, i) <==> LastKneeBefore(init, j, i)
  {
    assert forall k :: 0 <= k < |init| ==> infos[k] == init[k];
  }

  /** The headings of a section depend only on the images up to it. */
  lemma HeadedPrefix(infos: seq<LabelInfo>, init: seq<LabelInfo>, i: nat, sec: Section)
    requires i < |init| <= |infos| && init == infos[..|init|]
    requires Headed(init, i, sec)
    ensures Headed(infos, i, sec)
  {
    assert infos[i] == init[i];
    var upTo := i + 1;
    forall j | LastKneeBefore(infos, j, upTo) ensures LastKneeBefore(init, j, upTo) {
      LastKneeBeforePrefix(infos, init, j, upTo);
    }
  }

  /** The section of the last image, given that `base` holds the grade of
      the last knee grade label before it. */
  lemma HeadedStep(t: Templates, infos: seq<LabelInfo>, base: Option<string>)
    requires |infos| > 0
    requires forall j :: LastKneeBefore(infos, j, |infos| - 1) ==> base == Some(infos[j].grade)
    requires infos[|infos| - 1].prefixed ==> NextBase(infos[|infos| - 1], base).Some?
    ensures var last := |infos| - 1;
      Headed(infos, last, MakeSection(t, last, infos[last], NextBase(infos[last], base)))
  {
    var last := |infos| - 1;
    var info := infos[last];
    var sec := MakeSection(t, last, info, NextBase(info, base));
    if info.prefixed {
      forall j | 0 <= j <= last && LastKneeBefore(infos, j, last + 1)
        ensures sec.risksHeading == KneeGradeHeading("Risks", infos[j].grade)
        ensures sec.testsHeading == KneeGradeHeading("Recommended Tests", infos[j].grade)
      {
        if !info.knee {
          assert LastKneeBefore(infos, j, last);
        }
      }
    }
  }

  /** The headings of the earlier sections and of the last one make those
      of the whole list. */
  lemma HeadedSnoc(infos: seq<LabelInfo>, secs: seq<Section>, sec: Section)
    requires |infos| > 0 && |secs| == |infos| - 1
    requires forall i :: 0 <= i < |secs| ==> Headed(infos[..|secs|], i, secs[i])
    requires Headed(infos, |secs|, sec)
    ensures forall i :: 0 <= i < |infos| ==> Headed(infos, i, (secs + [sec])[i])
  {
    var init := infos[..|secs|];
    forall i | 0 <= i < |infos| ensures Headed(infos, i, (secs + [sec])[i]) {
      if i < |secs| {
        HeadedPrefix(infos, init, i, secs[i]);
      }
    }
  }

  /** Before the last image, `base_label` holds the grade of the last knee
      grade label before it. */
  lemma BaseBeforeLast(infos: seq<LabelInfo>)
    requires |infos| > 0
    ensures forall j :: LastKneeBefore(infos, j, |infos| - 1) ==>
      BaseAfter(infos[..|infos| - 1]) == Some(infos[j].grade)
  {
    var last := |infos| - 1;
    var init := infos[..last];
    BaseAfterLastKnee(init);
    forall j | LastKneeBefore(infos, j, last) ensures BaseAfter(init) == Some(infos[j].grade) {
      LastKneeBeforePrefix(infos, init, j, last);
    }
  }

  /** Every section of a successful report carries the headings `Headed`
      describes. */
  lemma {:induction false} RenderHeadings(t: Templates, infos: seq<LabelInfo>)
    ensures RenderState(t, infos).Success? ==>
      && |RenderState(t, infos).value.0| == |infos|
      && forall i :: 0 <= i < |infos| ==> Headed(infos, i, RenderState(t, infos).value.0[i])
    decreases |infos|
  {
    if infos != [] {
      var last := |infos| - 1;
      var init := infos[..last];
      RenderHeadings(t, init);
      var prev := RenderState(t, init);
      if prev.Success? {
        var step := ResolveImage(t, last, infos[last], prev.value.1);
        if step.Success? {
          var secs := prev.value.0 + [step.value.0];
          assert RenderState(t, infos) == Success((secs, step.value.1));
          RenderBase(t, init);
          BaseBeforeLast(infos);
          HeadedStep(t, infos, prev.value.1);
          HeadedSnoc(infos, prev.value.0, step.value.0);
        }
      }
    }
  }

  /** A label with the knee prefix but no closing ")" is looked up verbatim
      and gets a plain findings heading, yet its risks and tests headings name
      the grade of the last knee grade label before it. The report can fail
      only at an image before that knee grade label. */
  lemma StaleBaseLabel(t: Templates, images: seq<SelectedImage>, j: nat, i: nat)
    requires j < i < |images|
    requires IsKneeLabel(images[j].labelText)
    requires HasKneePrefix(images[i].labelText) && !IsKneeLabel(images[i].labelText)
    requires forall k :: j < k < i ==> !IsKneeLabel(images[k].labelText)
    ensures Render(t, images).Failure? ==> Render(t, images).error.index < j
    ensures Render(t, images).Success? ==>
      && |Render(t, images).value| == |images|
      && var sec := Render(t, images).value[i];
         var stale := BaseLabel(images[j].labelText);
         && sec.findingsHeading == LabelHeading("Findings", images[i].labelText)
         && sec.findings == Config.Get(t.findings, images[i].labelText, NoFindings)
         && sec.risksHeading == KneeGradeHeading("Risks", stale)
         && sec.testsHeading == KneeGradeHeading("Recommended Tests", stale)
  {
    var infos := Infos(images);
    assert LastKneeBefore(infos, j, i);
    StaleGrade(t, infos, j, i);
  }

  /** The same on classified labels. */
  lemma StaleGrade(t: Templates, infos: seq<LabelInfo>, j: nat, i: nat)
    requires LastKneeBefore(infos, j, i) && i < |infos|
    requires infos[i].prefixed && !infos[i].knee
    ensures RenderState(t, infos).Failure? ==> RenderState(t, infos).error.index < j
    ensures RenderState(t, infos).Success? ==>
      && |RenderState(t, infos).value.0| == |infos|
      && var sec := RenderState(t, infos).value.0[i];
         && sec.findingsHeading == LabelHeading("Findings", infos[i].text)
         && sec.findings == Config.Get(t.findings, infos[i].text, NoFindings)
         && sec.risksHeading == KneeGradeHeading("Risks", infos[j].grade)
         && sec.testsHeading == KneeGradeHeading("Recommended Tests", infos[j].grade)
  {
    RenderFailsAtFirstUnbound(t, infos);
    var st := RenderState(t, infos);
    if st.Failure? {
      var n := st.error.index;
      assert Unbound(infos, n) && infos[j].knee;
    } else {
      RenderOrder(t, infos);
      RenderHeadings(t, infos);
      var sec := st.value.0[i];
      StaleHeadings(infos, j, i, sec);
      assert TextsFor(t, sec, infos[i]) && Key(infos[i]) == infos[i].text;
    }
  }

  /** The headings `Headed` gives a prefix-only label. */
  lemma StaleHeadings(infos: seq<LabelInfo>, j: nat, i: nat, sec: Section)
    requires LastKneeBefore(infos, j, i) && i < |infos|
    requires infos[i].prefixed && !infos[i].knee
    requires Headed(infos, i, sec)
    ensures sec.findingsHeading == LabelHeading("Findings", infos[i].text)
    ensures sec.risksHeading == KneeGradeHeading("Risks", infos[j].grade)
    ensures sec.testsHeading == KneeGradeHeading("Recommended Tests", infos[j].grade)
  {
    assert LastKneeBefore(infos, j, i + 1);
  }

  /** The report of one more image extends the report of the images before it. */
  lemma RenderSnoc(t: Templates, infos: seq<LabelInfo>, x: LabelInfo)
    ensures RenderState(t, infos).Failure? ==> RenderState(t, infos + [x]) == RenderState(t, infos)
    ensures RenderState(t, infos).Success? ==>
      var st := RenderState(t, infos);
      var step := ResolveImage(t, |infos|, x, st.value.1);
      && (step.Failure? ==> RenderState(t, infos + [x]) == Failure(step.error))
      && (step.Success? ==> RenderState(t, infos + [x]) == Success((st.value.0 + [step.value.0], step.value.1)))
  {
    assert (infos + [x])[..|infos|] == infos;
  }

  /** A label with the knee prefix only and no knee grade label before it
      aborts the report: at the first label with the knee prefix, which is
      that image or an earlier prefix-only one. */
  lemma UnboundBaseLabelFails(t: Templates, images: seq<SelectedImage>, n: nat)
    requires n < |images|
    requires HasKneePrefix(images[n].labelText) && !IsKneeLabel(images[n].labelText)
    requires forall i :: 0 <= i < n ==> !IsKneeLabel(images[i].labelText)
    ensures Render(t, images).Failure?
    ensures var e := Render(t, images).error.index;
      && e <= n
      && HasKneePrefix(images[e].labelText) && !IsKneeLabel(images[e].labelText)
      && forall i :: 0 <= i < e ==> !HasKneePrefix(images[i].labelText)
    ensures (forall i :: 0 <= i < n ==> !HasKneePrefix(images[i].labelText)) ==>
      Render(t, images) == Failure(UnboundBaseLabel(n))
  {
    var infos := Infos(images);
    UnboundGradeFails(t, infos, n);
  }

  /** The same on classified labels. */
  lemma UnboundGradeFails(t: Templates, infos: seq<LabelInfo>, n: nat)
    requires n < |infos| && infos[n].prefixed && !infos[n].knee
    requires forall i :: 0 <= i < n ==> !infos[i].knee
    ensures RenderState(t, infos).Failure?
    ensures var e := RenderState(t, infos).error.index;
      && e <= n
      && infos[e].prefixed && !infos[e].knee
      && forall i :: 0 <= i < e ==> !infos[i].prefixed
    ensures (forall i :: 0 <= i < n ==> !infos[i].prefixed) ==>
      RenderState(t, infos) == Failure(UnboundBaseLabel(n))
  {
    RenderFailsAtFirstUnbound(t, infos);
    assert Unbound(infos, n);
    var e := RenderState(t, infos).error.index;
    assert Unbound(infos, e);
    forall i | 0 <= i < e ensures !infos[i].prefixed {
      if infos[i].prefixed {
        assert NoKneeBefore(infos, i);
        assert Unbound(infos, i);
      }
    }
  }

  /** Labels without the knee prefix never assign `base_label`. */
  lemma {:induction false} NoPrefixKeepsBase(t: Templates, infos: seq<LabelInfo>)
    requires forall i :: 0 <= i < |infos| ==> !infos[i].prefixed && !infos[i].knee
    ensures RenderState(t, infos).Success? && RenderState(t, infos).value.1 == None
    decreases |infos|
  {
    if infos != [] {
      var init := infos[..|infos| - 1];
      assert forall i :: 0 <= i < |init| ==> init[i] == infos[i];
      NoPrefixKeepsBase(t, init);
    }
  }
}

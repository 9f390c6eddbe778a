/** Facts about the constant tables of app/config.py and the severity table
    of app/utils/yolo_utils.py, and how the labels the detectors report meet
    their keys. */
module TableFacts {
  import opened Text
  import Config
  import YoloUtils

  /** The 22 labels that have findings, risks and tests texts. */
  const TemplateKeys: set<string> := {
    "surgical implant spine", "spondylolisthesis", "other lesion spine", "Ostheophytes",
    "foraminal stenosis", "disc space narrowing", "Vertebral collapse", "scoliosis",
    "boneanomaly", "fracture", "metal", "periostealreaction", "pronatorsign", "softtissue",
    "doubtful", "mild", "moderate", "osteoporosis", "acl",
    "heel spur", "sever", "fractured"
  }

  /** The three text tables have exactly the same keys. */
  lemma FindingsKeys()
    ensures Config.FindingsTemplate.Keys == TemplateKeys
  {
  }

  lemma RisksKeys()
    ensures Config.RisksTemplate.Keys == TemplateKeys
  {
  }

  lemma TestsKeys()
    ensures Config.TestsTemplate.Keys == TemplateKeys
  {
  }

  /** The two keys with a capital letter. */
  const CapitalisedKeys: set<string> := {"Ostheophytes", "Vertebral collapse"}

  /** No lower-cased text is one of the capitalised keys, so a label, which
      is always lower-cased, never reaches their entries. */
  lemma CapitalisedKeysUnreachable(s: string)
    ensures CapitalisedKeys <= TemplateKeys
    ensures Lower(s) !in CapitalisedKeys
  {
    LowerIsLowerText(s);
  }

  /** The same for the label of every annotation a detector yields. */
  lemma AnnotationLabelsMissCapitalisedKeys(bodyPart: string, output: YoloUtils.ModelOutput)
    requires !output.Raises?
    ensures YoloUtils.Annotate(bodyPart, output).value.labelText !in CapitalisedKeys
  {
    var t := YoloUtils.Annotate(bodyPart, output).value.labelText;
    assert IsLowerText(t);
    LowerOfLowerText(t);
    CapitalisedKeysUnreachable(t);
  }

  /** The knee grades are keys of the text tables as bare words; the label a
      knee grade is reported under, with its prefix, is not. */
  lemma KneeKeysAreBareGrades(g: string)
    requires g in YoloUtils.KneeGrades
    ensures g in TemplateKeys
    ensures YoloUtils.KneePrefix + g + ")" !in TemplateKeys
  {
    var lbl := YoloUtils.KneePrefix + g + ")";
    assert |lbl| == 22 + |g|;
    assert |lbl| >= 26;
    assert forall k :: k in TemplateKeys ==> |k| <= 22;
  }

  /** For spine, wrist and heel the conditions with a finding text are the
      conditions with a severity threshold. */
  lemma BodyPartKeysMatchThresholds(bodyPart: string)
    requires bodyPart in {"spine", "wrist", "heel"}
    ensures bodyPart in Config.BodyPartFindings && bodyPart in YoloUtils.SeverityThresholds
    ensures Config.BodyPartFindings[bodyPart].Keys == YoloUtils.SeverityThresholds[bodyPart].Keys
  {
  }

  /** For the knee the two tables differ in exactly the grades: the finding
      texts use the bare grade, the thresholds the prefixed label. */
  lemma KneeKeysDiffer()
    ensures "knee" in Config.BodyPartFindings && "knee" in YoloUtils.SeverityThresholds
    ensures Config.BodyPartFindings["knee"].Keys - YoloUtils.KneeGrades
         == YoloUtils.SeverityThresholds["knee"].Keys - PrefixedGrades()
    ensures YoloUtils.KneeGrades <= Config.BodyPartFindings["knee"].Keys
    ensures PrefixedGrades() <= YoloUtils.SeverityThresholds["knee"].Keys
    ensures YoloUtils.KneeGrades !! YoloUtils.SeverityThresholds["knee"].Keys
    ensures PrefixedGrades() !! Config.BodyPartFindings["knee"].Keys
  {
  }

  /** The knee grades as the detector reports them. */
  function PrefixedGrades(): (r: set<string>)
    ensures forall g :: g in YoloUtils.KneeGrades ==> YoloUtils.KneePrefix + g + ")" in r
  {
    var r := {"knee osteoarthritis (doubtful)", "knee osteoarthritis (mild)", "knee osteoarthritis (moderate)"};
    assert YoloUtils.KneePrefix + "doubtful" + ")" == "knee osteoarthritis (doubtful)";
    assert YoloUtils.KneePrefix + "mild" + ")" == "knee osteoarthritis (mild)";
    assert YoloUtils.KneePrefix + "moderate" + ")" == "knee osteoarthritis (moderate)";
    r
  }
}

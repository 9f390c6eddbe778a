# Orthopedic X-ray scan application: a Dafny model of its core

The application is a Flask web app. A clinician uploads X-ray images. Each
accepted image is run through one YOLO detector per body part (knee, spine,
heel, wrist). The most confident detection is kept, drawn on a copy of the
image, and stored with its label and confidence. Clinical texts (findings,
risks, recommended tests) are looked up by label in the configuration
tables. Selected images are then assembled into a PDF report.

This project models that core as Dafny definitions and proves properties
about it:

- `Config.dfy`: the constant tables of `app/config.py` (detector files,
  allowed extensions, per-body-part findings, and the three text templates).
- `YoloUtils.dfy`: `app/utils/yolo_utils.py`.
  - For one detector: its most confident box and the label it reports.
  - The box size in millimetres.
  - The red/green severity colour against the threshold table.
  - Where the caption rectangle is placed.
  - Across detectors: `detect_body_part`, which picks the most confident
    result, keeps the first on ties and skips detectors that raise.
- `PdfReport.dfy`: the label-to-text part of `generate_pdf_report`.
  - For each selected image: its numbered caption, the knee-grade parsing
    of the label, the three headings and the three texts.
  - The loop-carried `base_label` variable. This includes the error raised
    when a knee-prefixed label without ")" comes before any full knee grade
    label.
- `App.dfy`: the request logic of `app/app.py`.
  - `allowed_file`, detector loading and the upload loop.
  - Building `img_results`; `get_selection_options`; `get_clinical_details`.
  - Item parsing and the answers of `generate_report`.
  - `serve_image`'s mapping of stored paths to folders, and `delete_file`.
  - The session is the `Server` class. Files on disk are a set of paths
    under BASE_DIR. The result of `os.path.join` is resolved from its text:
    "" and "." stay, ".." goes up. Unlike the system, the model applies a
    ".." even after a name that is missing or is not a folder (see
    "## Left out").
- `TableFacts.dfy`: how the labels the detectors report meet the keys of
  the tables.
- `Text.dfy`: the Python `str` operations used above, over ASCII text:
  `lower`, `title`, `strip`, `find`, slicing, `split`, `rsplit`,
  `replace` and `int`.
- `Wrappers.dfy`: `Option` and `Result`.

The texts of the templates are passed to the report and request functions
as a `PdfReport.Templates` value. `PdfReport.AppTemplates()` is the
configured one. This keeps the proofs independent of the long literal
tables; facts about the literal tables are proved separately.

Two behaviours of the code are stated as proved lemmas:

- Label case in the threshold lookup. The severity threshold is looked up
  before the class is lower-cased. A knee grade that the detector names
  with a capital letter ("Mild") therefore misses its entry and falls back
  to 20 mm (`YoloUtils.ThresholdBeforeLowerCasing`).
- Knee-grade texts. The clinical details panel looks a knee grade label up
  verbatim and shows the placeholders. The PDF report strips the prefix and
  finds the grade's texts (`App.KneeGradeDetailsDisagree`).

## Model

| member | source | states |
|---|---|---|
| Config.Get | Orthopedic-Health-AI-Scan-Application/app/app.py:128-129 | `dict.get(key, default)`: the stored value when the key is present, the default otherwise |
| Text.Lower | Orthopedic-Health-AI-Scan-Application/app/utils/yolo_utils.py:89 | `str.lower()`: same length, each character lower-cased |
| Text.LowerIsLowerText | Orthopedic-Health-AI-Scan-Application/app/utils/yolo_utils.py:89 | no capital letter remains after lower-casing |
| Text.LowerOfLowerText | Orthopedic-Health-AI-Scan-Application/app/utils/yolo_utils.py:89 | lower-casing is idempotent on text without capitals |
| Text.Title | Orthopedic-Health-AI-Scan-Application/app/utils/pdf_generator.py:97 | `str.title()`: a letter after a non-letter is upper-cased, a letter after a letter lower-cased, other characters kept |
| Text.Strip | Orthopedic-Health-AI-Scan-Application/app/utils/pdf_generator.py:90 | `str.strip()`: the result is an infix of the input with only white space before and after it (ASCII white space including the separators 0x1c-0x1f), neither of its ends is white space, and text without white space is unchanged |
| Text.StripWith | Orthopedic-Health-AI-Scan-Application/app/app.py:233 | trimming either set of white space leaves an infix with only blanks outside it and none at its ends; text without blanks is unchanged |
| Text.Find | Orthopedic-Health-AI-Scan-Application/app/utils/pdf_generator.py:90 | `str.find(c)`: -1 exactly when `c` is absent, otherwise the first index holding `c` |
| Text.PySlice | Orthopedic-Health-AI-Scan-Application/app/utils/pdf_generator.py:90 | Python slicing: the plain subsequence for in-range bounds, clamped otherwise |
| Text.SplitOnce | Orthopedic-Health-AI-Scan-Application/app/app.py:232 | `split('_', 1)` unpacked into two: fails exactly when there is no separator; the parts rebuild the input around the first one |
| Text.RSplitTail | Orthopedic-Health-AI-Scan-Application/app/app.py:29 | `rsplit('.', 1)[1]`: the suffix after the last separator, which holds none |
| Text.RemoveAll | Orthopedic-Health-AI-Scan-Application/app/app.py:293 | `str.replace(p, '')` never lengthens the text |
| Text.RemoveAllAbsent | Orthopedic-Health-AI-Scan-Application/app/app.py:293 | text that cannot contain the pattern is unchanged by the replacement |
| Text.RemoveAllPrefix | Orthopedic-Health-AI-Scan-Application/app/app.py:293 | a leading occurrence is removed along with every later one |
| Text.NatToString | Orthopedic-Health-AI-Scan-Application/app/app.py:176 | the decimal text of an index: non-empty digits without a leading zero |
| Text.NatToStringValue | Orthopedic-Health-AI-Scan-Application/app/app.py:176 | reading the decimal text back gives the number |
| Text.NatToStringInjective | Orthopedic-Health-AI-Scan-Application/app/app.py:176 | distinct indexes get distinct ids |
| Text.ParseIntRoundTrip | Orthopedic-Health-AI-Scan-Application/app/app.py:233 | `int(str(n)) == n` and `int('-' + str(n)) == -n` for every `n` of at most 4300 digits |
| Text.ParseDigits | Orthopedic-Health-AI-Scan-Application/app/app.py:233 | `int()` of 1 to 4300 plain digits is their decimal value |
| Text.ParseNegativeDigits | Orthopedic-Health-AI-Scan-Application/app/app.py:233 | `int()` of a minus sign and 1 to 4300 digits is the negated value |
| Text.ParseIntSyntax | Orthopedic-Health-AI-Scan-Application/app/app.py:233 | `int()` accepts exactly ASCII white space around an optional sign and digit groups joined by single underscores, with at most 4300 digits (CPython's default `sys.get_int_max_str_digits()`; leading zeros count, underscores do not). A negative result needs the minus sign |
| Text.ParseInt | Orthopedic-Health-AI-Scan-Application/app/app.py:233 | a negative value comes only from text whose first character after white space is "-"; `ParseIntSyntax` states the whole syntax |
| Text.TooManyDigitsRefused | Orthopedic-Health-AI-Scan-Application/app/app.py:233 | more than 4300 digits are refused, with or without a minus sign, whatever their value |
| Text.NatToStringLengthMonotone | Orthopedic-Health-AI-Scan-Application/app/app.py:176 | a larger index has a decimal text at least as long, so every index below a 4300-digit count has at most 4300 digits |
| Text.ParseRefusesNonDigit | Orthopedic-Health-AI-Scan-Application/app/app.py:233 | a lone character that is no digit, sign or white space is refused |
| YoloUtils.Threshold | Orthopedic-Health-AI-Scan-Application/app/utils/yolo_utils.py:64 | the table's threshold for a known body part and class, 20 mm otherwise; always positive |
| YoloUtils.ThresholdBeforeLowerCasing | Orthopedic-Health-AI-Scan-Application/app/utils/yolo_utils.py:56-64 | "mild" finds the 4 mm knee threshold, "Mild" falls back to the 20 mm default |
| YoloUtils.ReportedLabel | Orthopedic-Health-AI-Scan-Application/app/utils/yolo_utils.py:56-57 | the reported label is the lower-cased class, wrapped as "knee osteoarthritis (<grade>)" exactly for knee detectors whose class is a grade in any case |
| YoloUtils.PredictedClass | Orthopedic-Health-AI-Scan-Application/app/utils/yolo_utils.py:56-57 | the class is kept, or wrapped as "knee osteoarthritis (<class>)" exactly for a knee detector whose class is a grade in any case |
| YoloUtils.WrapLower | Orthopedic-Health-AI-Scan-Application/app/utils/yolo_utils.py:57 | lower-casing a text between a lower-case prefix and suffix lower-cases only the middle |
| YoloUtils.ExceedsIffSizeAbove | Orthopedic-Health-AI-Scan-Application/app/utils/yolo_utils.py:59-65 | the exact squared-diagonal test agrees with `size_mm > threshold` for the size `sqrt(w²+h²)·0.05·10` |
| YoloUtils.IsSizeMm | Orthopedic-Health-AI-Scan-Application/app/utils/yolo_utils.py:59-61 | the size in millimetres, `sqrt(w²+h²)·0.05·10`, characterised as the non-negative number with that square |
| YoloUtils.Exceeds | Orthopedic-Health-AI-Scan-Application/app/utils/yolo_utils.py:63-65 | `size_mm > threshold`, decided on the squared diagonal; `ExceedsIffSizeAbove` proves the two agree |
| YoloUtils.SquareMonotone | Orthopedic-Health-AI-Scan-Application/app/utils/yolo_utils.py:61 | for non-negative values, comparing squares is comparing the values |
| YoloUtils.SizeOf40By30 | Orthopedic-Health-AI-Scan-Application/app/utils/yolo_utils.py:59-61 | a 40 by 30 pixel box measures 25 mm |
| YoloUtils.LabelRect | Orthopedic-Health-AI-Scan-Application/app/utils/yolo_utils.py:76-83 | the caption rectangle is `text_w+10` by `text_h+baseline+10` and never overlaps the box rows. It ends 5 px above the box when that fits inside the image, and starts 5 px below it otherwise |
| YoloUtils.FirstMaxIndex | Orthopedic-Health-AI-Scan-Application/app/utils/yolo_utils.py:48 | `argmax`: an index holding the greatest confidence, with every earlier one strictly smaller |
| YoloUtils.Confidences | Orthopedic-Health-AI-Scan-Application/app/utils/yolo_utils.py:48 | the confidences of the boxes, position by position |
| YoloUtils.Annotate | Orthopedic-Health-AI-Scan-Application/app/utils/yolo_utils.py:41-91 | unreadable image gives "normal" without a picture, no box gives "normal" with conf 0, a raise gives nothing; otherwise everything comes from the first most confident box: its confidence, its lower-cased predicted class as label, and a marking of that box captioned "<body part>-<predicted class>" with the caption rectangle placed for it; the body part is passed through |
| YoloUtils.RedIffAboveThreshold | Orthopedic-Health-AI-Scan-Application/app/utils/yolo_utils.py:59-65 | the most confident box is drawn red exactly when its size exceeds the threshold of its class before lower-casing, green otherwise |
| YoloUtils.Outcomes | Orthopedic-Health-AI-Scan-Application/app/utils/yolo_utils.py:118-121 | what each detector yields, in the order of the detectors: its annotation, or nothing when it raises |
| YoloUtils.Scores | Orthopedic-Health-AI-Scan-Application/app/utils/yolo_utils.py:122 | the confidence each outcome competes with, position by position; 0 for a detector that raised |
| YoloUtils.DetectBodyPart | Orthopedic-Health-AI-Scan-Application/app/utils/yolo_utils.py:116-137 | the loop over the detectors computes the specification `SelectBest` of their outcomes |
| YoloUtils.SelectBestBounds | Orthopedic-Health-AI-Scan-Application/app/utils/yolo_utils.py:116-137 | the chosen confidence is at least every detector's and is positive whenever something is detected |
| YoloUtils.StepFacts | Orthopedic-Health-AI-Scan-Application/app/utils/yolo_utils.py:122-129 | one loop turn never lowers the best confidence and replaces the best only by a strictly more confident result |
| YoloUtils.SelectBest | Orthopedic-Health-AI-Scan-Application/app/utils/yolo_utils.py:116-137 | the result of the detector loop over the outcomes; a chosen annotation is one of the outcomes |
| YoloUtils.SelectBestBelow | Orthopedic-Health-AI-Scan-Application/app/utils/yolo_utils.py:122 | while every score is below `c`, so is the best |
| YoloUtils.SelectBestKept | Orthopedic-Health-AI-Scan-Application/app/utils/yolo_utils.py:122 | detectors scoring no more than the best so far change nothing |
| YoloUtils.SelectBestIsFirstMaximum | Orthopedic-Health-AI-Scan-Application/app/utils/yolo_utils.py:116-137 | the result is the annotation of the first detector with the greatest confidence when that is positive, and no detection otherwise |
| YoloUtils.RaisingYieldsNothing | Orthopedic-Health-AI-Scan-Application/app/utils/yolo_utils.py:130-132 | a raising detector contributes no outcome at its position, the others keep theirs |
| YoloUtils.RaisingDetectorIgnored | Orthopedic-Health-AI-Scan-Application/app/utils/yolo_utils.py:130-132 | a detector that raises changes nothing, wherever it stands |
| YoloUtils.SkippedNone | Orthopedic-Health-AI-Scan-Application/app/utils/yolo_utils.py:130-132 | an outcome of nothing between two runs of the loop leaves the best result unchanged |
| PdfReport.Classify | Orthopedic-Health-AI-Scan-Application/app/utils/pdf_generator.py:88-90 | records the label, whether it is a full knee grade label and whether it has the knee prefix, and for a full knee label the grade parsed from it; a full knee grade label always has the knee prefix |
| PdfReport.IsKneeLabel | Orthopedic-Health-AI-Scan-Application/app/utils/pdf_generator.py:89 | the test of the findings branch: the knee prefix and a closing ")" at the end |
| PdfReport.HasKneePrefix | Orthopedic-Health-AI-Scan-Application/app/utils/pdf_generator.py:113 | the test of the risks and tests headings: the knee prefix only |
| PdfReport.BaseLabel | Orthopedic-Health-AI-Scan-Application/app/utils/pdf_generator.py:90 | the text between the first "(" and the first ")", stripped; `KneeLabelBase` proves it recovers the grade |
| PdfReport.Infos | Orthopedic-Health-AI-Scan-Application/app/utils/pdf_generator.py:68-70 | one classification per selected image, in order |
| PdfReport.LookupKey | Orthopedic-Health-AI-Scan-Application/app/utils/pdf_generator.py:89-101 | a full knee grade label is looked up by its parsed grade, any other label verbatim |
| PdfReport.MakeSection | Orthopedic-Health-AI-Scan-Application/app/utils/pdf_generator.py:70-127 | the number is position+1; the texts come from the key with the "No … available" defaults; the findings heading follows the full knee test; the risks and tests headings follow the prefix-only test and read `base_label` |
| PdfReport.ResolveImage | Orthopedic-Health-AI-Scan-Application/app/utils/pdf_generator.py:88-127 | one image fails exactly when its label has the knee prefix, lacks the closing ")" and `base_label` is unassigned; otherwise its section is numbered position+1, shows the texts of its own key, and `base_label` is reassigned only by a full knee grade label |
| PdfReport.RenderSections | Orthopedic-Health-AI-Scan-Application/app/utils/pdf_generator.py:68-127 | the loop over the selected images computes the specification `Render` |
| PdfReport.RenderState | Orthopedic-Health-AI-Scan-Application/app/utils/pdf_generator.py:68-127 | the sections and the final `base_label` after the loop has seen the classified labels in order, or the first failure |
| PdfReport.Render | Orthopedic-Health-AI-Scan-Application/app/utils/pdf_generator.py:68-127 | the per-image sections of the report, or the error that aborts it; `RenderOrder`, `RenderHeadings`, `RenderFailsAtFirstUnbound`, `RenderSelfContained` and `ExtendFailure` state its properties |
| PdfReport.ExtendFailure | Orthopedic-Health-AI-Scan-Application/app/utils/pdf_generator.py:68 | a failing image aborts the whole report with its error |
| PdfReport.RenderOrder | Orthopedic-Health-AI-Scan-Application/app/utils/pdf_generator.py:68-101 | one section per image, in order, numbered from 1, each showing the three texts of its own label's key whatever came before |
| PdfReport.RenderSelfContained | Orthopedic-Health-AI-Scan-Application/app/utils/pdf_generator.py:68-127 | with no prefix-only labels the report succeeds and each section depends on its own label alone |
| PdfReport.ResolveIndependent | Orthopedic-Health-AI-Scan-Application/app/utils/pdf_generator.py:88-125 | for a full knee label or a label without the prefix, the carried `base_label` makes no difference |
| PdfReport.KneePrefixShape | Orthopedic-Health-AI-Scan-Application/app/utils/pdf_generator.py:89-90 | the knee prefix has 21 characters, its only "(" last and no ")" |
| PdfReport.KneeLabelBase | Orthopedic-Health-AI-Scan-Application/app/utils/pdf_generator.py:89-90 | parsing "knee osteoarthritis (<grade>)" gives back the grade |
| PdfReport.WrappedBase | Orthopedic-Health-AI-Scan-Application/app/utils/pdf_generator.py:90 | the find/slice/strip parse recovers the wrapped word for any such prefix |
| PdfReport.KneeGradesAreWords | Orthopedic-Health-AI-Scan-Application/app/utils/yolo_utils.py:56 | the three grades contain no parenthesis and no white space |
| PdfReport.KneeGradeResolves | Orthopedic-Health-AI-Scan-Application/app/utils/pdf_generator.py:89-97 | a detected knee grade, in any case, resolves to the bare grade's three texts and a grade findings heading |
| PdfReport.StaleBaseLabel | Orthopedic-Health-AI-Scan-Application/app/utils/pdf_generator.py:89-125 | a prefix-only label at any position `i`, with `j` the last knee grade label before it, is looked up with its own label and gets a plain findings heading, while its risks and tests headings name the grade of image `j`; if the report fails, it fails at an image before `j` |
| PdfReport.StaleGrade | Orthopedic-Health-AI-Scan-Application/app/utils/pdf_generator.py:89-125 | the same on classified labels, for any list and any such pair `j < i` |
| PdfReport.RenderSnoc | Orthopedic-Health-AI-Scan-Application/app/utils/pdf_generator.py:68 | the report of one more image extends the earlier report by that image's section |
| PdfReport.UnboundBaseLabelFails | Orthopedic-Health-AI-Scan-Application/app/utils/pdf_generator.py:113-114 | a prefix-only label with no knee grade label before it aborts the report, at the first label with the knee prefix (that image or an earlier prefix-only one); with no knee prefix before it, at that image |
| PdfReport.UnboundGradeFails | Orthopedic-Health-AI-Scan-Application/app/utils/pdf_generator.py:113-114 | the same on classified labels |
| PdfReport.RenderFailsAtFirstUnbound | Orthopedic-Health-AI-Scan-Application/app/utils/pdf_generator.py:89-125 | the report fails exactly when some label has the knee prefix only and no knee grade label before it, and the error names the first such image |
| PdfReport.RenderBase | Orthopedic-Health-AI-Scan-Application/app/utils/pdf_generator.py:88-90 | a successful run leaves in `base_label` the grade each knee grade label assigns, the last assignment winning |
| PdfReport.BaseAfterLastKnee | Orthopedic-Health-AI-Scan-Application/app/utils/pdf_generator.py:88-90 | that value is unassigned exactly when no knee grade label occurred, and otherwise is the grade of the last one |
| PdfReport.RenderCarriesLastGrade | Orthopedic-Health-AI-Scan-Application/app/utils/pdf_generator.py:88-90 | after the loop, `base_label` is unassigned exactly when no knee grade label occurred, and otherwise holds the grade of the last one |
| PdfReport.RenderHeadings | Orthopedic-Health-AI-Scan-Application/app/utils/pdf_generator.py:89-125 | in a successful report every section's findings heading names its grade for a knee grade label, else the label; its risks and tests headings name the label without the knee prefix, else the grade of the last knee grade label up to and including it |
| PdfReport.NoPrefixKeepsBase | Orthopedic-Health-AI-Scan-Application/app/utils/pdf_generator.py:89-90 | labels without the knee prefix never assign `base_label` |
| TableFacts.FindingsKeys | Orthopedic-Health-AI-Scan-Application/app/config.py:55-86 | the findings template has exactly the 22 shared keys |
| TableFacts.RisksKeys | Orthopedic-Health-AI-Scan-Application/app/config.py:88-118 | the risks template has exactly the same 22 keys |
| TableFacts.TestsKeys | Orthopedic-Health-AI-Scan-Application/app/config.py:120-150 | the tests template has exactly the same 22 keys |
| TableFacts.CapitalisedKeysUnreachable | Orthopedic-Health-AI-Scan-Application/app/config.py:56-150 | no lower-cased text equals "Ostheophytes" or "Vertebral collapse" |
| TableFacts.AnnotationLabelsMissCapitalisedKeys | Orthopedic-Health-AI-Scan-Application/app/utils/yolo_utils.py:89 | no label a detector reports reaches the two capitalised keys |
| TableFacts.KneeKeysAreBareGrades | Orthopedic-Health-AI-Scan-Application/app/config.py:56-150 | the knee grades are template keys; the prefixed labels are not |
| TableFacts.BodyPartKeysMatchThresholds | Orthopedic-Health-AI-Scan-Application/app/config.py:23-54 | for spine, wrist and heel, `body_part_findings` and `severity_thresholds` have the same conditions |
| TableFacts.KneeKeysDiffer | Orthopedic-Health-AI-Scan-Application/app/config.py:42-48 | for the knee the two tables differ exactly in bare versus prefixed grades |
| TableFacts.PrefixedGrades | Orthopedic-Health-AI-Scan-Application/app/utils/yolo_utils.py:19-22 | contains the prefixed form of every knee grade |
| App.AllowedFile | Orthopedic-Health-AI-Scan-Application/app/app.py:27-29 | `None` exactly for a type other than "image" |
| App.AllowedFileExtension | Orthopedic-Health-AI-Scan-Application/app/app.py:27-29 | a name is accepted exactly when its last extension, in any case, is png, jpg or jpeg |
| App.ExtensionOf | Orthopedic-Health-AI-Scan-Application/app/app.py:29 | the extension examined is the text after the last dot |
| App.RSplitTailAfterLast | Orthopedic-Health-AI-Scan-Application/app/app.py:29 | `rsplit` returns what follows a separator with none after it |
| App.NoExtensionRefused | Orthopedic-Health-AI-Scan-Application/app/app.py:29 | a name without a dot is refused |
| App.StoredLocation | Orthopedic-Health-AI-Scan-Application/app/app.py:292-295 | "uploads/" paths go to the uploads folder and "processed/" paths to the processed folder, with every occurrence of the prefix removed; other paths have none |
| App.SplitPath | Orthopedic-Health-AI-Scan-Application/app/app.py:292-300 | `str.split('/')`: the pieces between the slashes, none holding a slash; a name without a slash is its own single piece |
| App.Walk | Orthopedic-Health-AI-Scan-Application/app/app.py:292-302 | the textual resolution of the pieces from a folder: "" and "." stay, ".." goes up (not above the root) whatever name it follows, any other piece goes down; proper names in, proper names out |
| App.Resolve | Orthopedic-Health-AI-Scan-Application/app/app.py:292-302 | `os.path.join(dir, rel)` resolved from its text by `Walk`: an absolute `rel` restarts from the root; the result is a resolved path |
| App.ResolveName | Orthopedic-Health-AI-Scan-Application/app/app.py:80 | a proper name (no "/", not "", "." or "..") is the file of that name inside the folder |
| App.ResolveUp | Orthopedic-Health-AI-Scan-Application/app/app.py:298 | "../<name>" is that name in the parent folder |
| App.SplitPathUp | Orthopedic-Health-AI-Scan-Application/app/app.py:298 | "../<name>" splits into ".." and the name |
| App.FolderPath | Orthopedic-Health-AI-Scan-Application/app/config.py:15-17 | UPLOAD_FOLDER and PROCESSED_FOLDER: app/uploads and app/processed under BASE_DIR |
| App.PathOf | Orthopedic-Health-AI-Scan-Application/app/app.py:293-300 | the file a folder and a name relative to it denote |
| App.Lookup | Orthopedic-Health-AI-Scan-Application/app/app.py:298-302 | the file a name resolves to from a folder, when it exists; in the confined form, only when it also lies inside that folder |
| App.ServeImage | Orthopedic-Health-AI-Scan-Application/app/app.py:287-308 | only existing files are sent. A prefixed name is sent only from the path its folder and remainder resolve to. Any other name is resolved from uploads, then from processed, else not found. Every path is `os.path.join` of the folder and the name, resolved from its text by `Resolve`, ".." included |
| App.ServeImageWithin | Orthopedic-Health-AI-Scan-Application/app/app.py:287-308 | serve_image as evidently meant: only existing files inside the uploads or processed folder are sent |
| App.ServeWithinAgrees | Orthopedic-Health-AI-Scan-Application/app/app.py:287-308 | on the stored names the application hands out, and on bare names, serve_image and its confined form send the same file |
| App.SlashFreeUnprefixed | Orthopedic-Health-AI-Scan-Application/app/app.py:292-297 | a name without "/" has neither prefix |
| App.ServeImageEscapes | Orthopedic-Health-AI-Scan-Application/app/app.py:297-304 | "../<name>" resolves from either folder to app/<name>, which serve_image sends though it lies in neither folder; the confined form refuses it |
| App.StoredNameRoundTrip | Orthopedic-Health-AI-Scan-Application/app/app.py:84 | a stored name without "/" maps back to itself in its folder |
| App.ReplaceRemovesRepeatedPrefix | Orthopedic-Health-AI-Scan-Application/app/app.py:293 | "uploads/uploads/<name>" maps to the bare name |
| App.ResultFor | Orthopedic-Health-AI-Scan-Application/app/app.py:119-130 | every field of a result from its upload, with the findings and tests texts or the "No specific … available" defaults |
| App.ResultsOf | Orthopedic-Health-AI-Scan-Application/app/app.py:111-131 | the results of the uploaded images in order, skipping those without an annotated image, each with its position in the upload as id; its lemmas below state these facts |
| App.BuildResults | Orthopedic-Health-AI-Scan-Application/app/app.py:111-131 | the loop computes the specification `ResultsOf` |
| App.ResultsNameTheirUpload | Orthopedic-Health-AI-Scan-Application/app/app.py:112-131 | no more results than uploads; each result is the result of the upload its id names, which has an annotated image |
| App.ResultIdsIncrease | Orthopedic-Health-AI-Scan-Application/app/app.py:112-131 | the ids of the results increase strictly |
| App.AnnotatedUploadsHaveResults | Orthopedic-Health-AI-Scan-Application/app/app.py:112-131 | every upload with an annotated image has a result carrying its position as id |
| App.ResultsWithoutGaps | Orthopedic-Health-AI-Scan-Application/app/app.py:112-131 | with every annotated image saved, the ids are 0, 1, 2, … |
| App.GetSelectionOptions | Orthopedic-Health-AI-Scan-Application/app/app.py:169-184 | one option per result, in order; generate_report resolves every offered id to that same result, given a count of at most 4300 digits |
| App.SelectionId | Orthopedic-Health-AI-Scan-Application/app/app.py:176 | the id "img_<i>" offered for the result at position `i`; `SelectionIdRoundTrip` proves generate_report resolves it back to `i` |
| App.OptionFor | Orthopedic-Health-AI-Scan-Application/app/app.py:175-182 | the option for position `i`: its id, the caption "Image <i+1> (<label>)", type "image", the index and both paths |
| App.ResolveItem | Orthopedic-Health-AI-Scan-Application/app/app.py:230-252 | an accepted item names a position inside the results; every error carries the item |
| App.NoSeparatorRefused | Orthopedic-Health-AI-Scan-Application/app/app.py:232 | an item without "_" cannot be split in two and is refused as an invalid format |
| App.ResolveIndex | Orthopedic-Health-AI-Scan-Application/app/app.py:233-252 | the checks after the split, in source order: an index `int()` refuses is a format error; then another type is a type error; then an index at or past the count is an index error; then an index below minus the count is a format error (the IndexError of `results[index]`); an index from minus the count to -1 names the result that many from the end; any other index names that result |
| App.SplitAtFirst | Orthopedic-Health-AI-Scan-Application/app/app.py:232 | splitting at the first separator recovers the parts |
| App.SelectionIdRoundTrip | Orthopedic-Health-AI-Scan-Application/app/app.py:176 | "img_<i>" resolves to `i` for every `i` below the count, up to 4300 digits |
| App.SelectionIdParts | Orthopedic-Health-AI-Scan-Application/app/app.py:232-233 | an id splits into "img" and its decimal index, which parses back |
| App.NegativeIndexFromEnd | Orthopedic-Health-AI-Scan-Application/app/app.py:241-244 | "img_-<n>" with `n` at most the count passes the bound check and names the n-th result from the end |
| App.NegativeImageItem | Orthopedic-Health-AI-Scan-Application/app/app.py:235-244 | an image item whose index parses to `-n`, with `1 <= n <= count`, names the result `count - n` |
| App.ItemParts | Orthopedic-Health-AI-Scan-Application/app/app.py:232-233 | an item splits at its first "_" when the type has none, so it is judged on that type and on what `int()` makes of the rest |
| App.OtherTypeRefused | Orthopedic-Health-AI-Scan-Application/app/app.py:235-239 | a well-formed item of another type is refused as an invalid type |
| App.IndexPastEndRefused | Orthopedic-Health-AI-Scan-Application/app/app.py:241-242 | an index at or past the count is refused as an invalid index |
| App.NonIntegerIndexRefused | Orthopedic-Health-AI-Scan-Application/app/app.py:232-252 | an item whose text after the first "_" is no integer is refused as an invalid format, whatever its type |
| App.LongIndexIsFormatError | Orthopedic-Health-AI-Scan-Application/app/app.py:232-252 | an index of more than 4300 digits is refused as an invalid format, even a small one ("img_" + "0"*4300 + "1") |
| App.LetterIndexIsFormatError | Orthopedic-Health-AI-Scan-Application/app/app.py:232-252 | "abc_x" is refused as an invalid format |
| App.ResolveAll | Orthopedic-Health-AI-Scan-Application/app/app.py:230-233 | one resolution per item, all inside the results |
| App.Pick | Orthopedic-Health-AI-Scan-Application/app/app.py:230-250 | the images the resolved items select, in item order, or the error of the first refused item; `PickInOrder`, `PickFirstError` and `PickAccepted` state this |
| App.SelectImages | Orthopedic-Health-AI-Scan-Application/app/app.py:228-252 | the selection of a request: every item resolved, then picked |
| App.PickInOrder | Orthopedic-Health-AI-Scan-Application/app/app.py:230-250 | when every item resolves, the selection holds in order the result each names |
| App.PickFirstError | Orthopedic-Health-AI-Scan-Application/app/app.py:230-252 | the first refused item decides the outcome |
| App.PickAccepted | Orthopedic-Health-AI-Scan-Application/app/app.py:230-252 | a successful selection accepted every item |
| App.PickFailureExtends | Orthopedic-Health-AI-Scan-Application/app/app.py:239-252 | a refusal among the first items refuses the whole request |
| App.SelectImagesInOrder | Orthopedic-Health-AI-Scan-Application/app/app.py:228-250 | accepted items select, in item order, the results they name |
| App.FirstRefusedItemAborts | Orthopedic-Health-AI-Scan-Application/app/app.py:230-252 | the first refused item decides the answer, whatever follows |
| App.OfferedIdsSelect | Orthopedic-Health-AI-Scan-Application/app/app.py:174-250 | a request built from offered ids selects exactly the chosen results |
| App.GenerateReport | Orthopedic-Health-AI-Scan-Application/app/app.py:211-269 | the handler computes the specification `ReportAnswer` |
| App.ReportAnswer | Orthopedic-Health-AI-Scan-Application/app/app.py:211-269 | the answer of generate_report in source order: missing patient information, no JSON body, no items, the first refused item, a failing report, an unwritten PDF, else the ready report; `ReadyReportFollowsItems` states what a ready report holds |
| App.SelectItems | Orthopedic-Health-AI-Scan-Application/app/app.py:228-252 | the loop over the items computes the specification `SelectImages`: the results in item order, or the first refusal |
| App.PickStep | Orthopedic-Health-AI-Scan-Application/app/app.py:230-252 | one turn of that loop: a refused item refuses the whole request, an accepted one appends its result |
| App.ReadyReportFollowsItems | Orthopedic-Health-AI-Scan-Application/app/app.py:211-264 | a ready report needs patient information, a body and a written file. It has one section per item, numbered in item order, each showing the texts of the result its item names |
| App.PickedSections | Orthopedic-Health-AI-Scan-Application/app/app.py:228-264 | the sections rendered from a successful selection follow the resolved items one by one, each numbered and showing its own texts |
| App.GetClinicalDetails | Orthopedic-Health-AI-Scan-Application/app/app.py:186-209 | another type is an invalid selection type, an index past the end an invalid selection; an "image" request with an index inside the results is answered with the three texts of the label looked up verbatim |
| App.KneeGradeDetailsDisagree | Orthopedic-Health-AI-Scan-Application/app/app.py:199-205 | for a knee grade label the panel shows the placeholders while the report finds the grade's texts |
| App.LoadModels | Orthopedic-Health-AI-Scan-Application/app/app.py:68-73 | the loop computes the specification `LoadedModels` |
| App.LoadedModels | Orthopedic-Health-AI-Scan-Application/app/app.py:68-73 | the body parts of YOLO_MODELS whose detector file exists, in configured order |
| App.AllModelsLoaded | Orthopedic-Health-AI-Scan-Application/app/config.py:7-12 | with every file present the detectors run as knee, spine, heel, wrist |
| App.LoadedModelsKeepOrder | Orthopedic-Health-AI-Scan-Application/app/app.py:68-73 | the loaded body parts are exactly those whose file exists, at most one per entry, and they are a subsequence of YOLO_MODELS: the k-th comes from a strictly later entry than the (k-1)-th, and every entry with an existing file is among them |
| App.LoadedInOrder | Orthopedic-Health-AI-Scan-Application/app/app.py:68-73 | the positions the loaded body parts come from increase strictly, and every entry with an existing file is among them |
| App.UploadedOf | Orthopedic-Health-AI-Scan-Application/app/app.py:75-104 | the uploaded images of a request, never more than the files sent; `UploadedInFileOrder` states which and in what order |
| App.Uploaded | Orthopedic-Health-AI-Scan-Application/app/app.py:76-104 | what the upload loop keeps for one file; `UploadedKeeps` states it |
| App.UploadedKeeps | Orthopedic-Health-AI-Scan-Application/app/app.py:76-104 | a file is kept exactly when its extension is accepted and detection named a body part; it keeps "uploads/<stored name>", the detected body part, label and confidence, and "processed/<name>" exactly when saving the annotated image gave a name |
| App.KeptOf | Orthopedic-Health-AI-Scan-Application/app/app.py:75-104 | what a per-file step keeps of the files, in file order, never more than the files |
| App.KeptInOrder | Orthopedic-Health-AI-Scan-Application/app/app.py:75-104 | the k-th kept value comes from a file whose position increases strictly with k, and every file the step keeps is among them |
| App.KeptIndicesComplete | Orthopedic-Health-AI-Scan-Application/app/app.py:75-104 | every file the step keeps has its position among the kept positions |
| App.UploadedInFileOrder | Orthopedic-Health-AI-Scan-Application/app/app.py:75-104 | the uploaded images are exactly the kept files, each once, in file order |
| App.WrittenBy | Orthopedic-Health-AI-Scan-Application/app/app.py:76-94 | the files saved for one input, as resolved paths: the upload when its extension is accepted, and the annotated image when the file is kept and saving gave a name |
| App.WrittenFiles | Orthopedic-Health-AI-Scan-Application/app/app.py:75-104 | the files one request saves |
| App.UnionOverInputs | Orthopedic-Health-AI-Scan-Application/app/app.py:75-104 | a union over the inputs holds what each input contributes and nothing else |
| App.WrittenFilesOfInputs | Orthopedic-Health-AI-Scan-Application/app/app.py:75-104 | a request saves what each of its inputs saves, and nothing else |
| App.ResultFilesOfInput | Orthopedic-Health-AI-Scan-Application/app/app.py:81-131 | the stored files of the result made from a kept input are files that input saved |
| App.ResultFilesWereWritten | Orthopedic-Health-AI-Scan-Application/app/app.py:75-131 | every stored file that delete_file removes for a result was saved by the upload that made it |
| App.UploadedAreAccepted | Orthopedic-Health-AI-Scan-Application/app/app.py:76-88 | every kept upload comes from a file with an accepted extension |
| App.Server.constructor | Orthopedic-Health-AI-Scan-Application/app/app.py:34-37 | an empty session over the given BASE_DIR and files |
| App.Server.UploadImages | Orthopedic-Health-AI-Scan-Application/app/app.py:59-133 | every accepted file and every saved annotated image is added to the files on disk, and no other upload or image; with something kept the session holds exactly the new uploads and their results, otherwise the session is unchanged |
| App.Server.DeleteFile | Orthopedic-Health-AI-Scan-Application/app/app.py:317-347 | for "image" and an index inside the results, that result is removed and its stored files are deleted. Any other index changes nothing and still reports success. Another type is refused |
| App.RemoveAt | Orthopedic-Health-AI-Scan-Application/app/app.py:339 | `list.pop(i)`: one shorter, earlier entries kept, later ones shifted down |
| App.RemoveAtMultiset | Orthopedic-Health-AI-Scan-Application/app/app.py:339 | removing an entry takes out exactly that entry |

## Left out

- Flask itself is not modelled: routing, `session` storage, `flash`, `jsonify`, `render_template`, redirects and `send_file`. Answers are datatypes, and the session is the fields of `App.Server`.
- `save_patient_info`, `clear_session`, `download_report` and the error handlers hold no logic beyond Flask calls. Patient information is a boolean: present or not.
- `secure_filename` and `uuid4` are not modelled. The stored and processed names are inputs (`App.UploadInput`).
- The upload loop takes what `detect_body_part` returned for each file as an input (`App.UploadInput`). The model does not tie that input to `YoloUtils.DetectBodyPart` over the loaded detectors; both are proved separately.
- YOLO inference, `cv2.imread`, `cv2.getTextSize`, drawing and `cv2.imwrite` are not modelled. What each detector returned, whether the image was readable, the caption's measured size and whether saving succeeded are inputs. The drawing is recorded as a `Marking` value.
- The caption's second and third lines (size and confidence formatted with `:.1f` and `:.2f`) are not modelled. Only the first line, "<body part>-<class>", is kept.
- `YoloUtils.IsSizeMm`: the size is an ideal real number, characterised by its square rather than computed with floating-point `sqrt`. Floating-point rounding is not modelled.
- The automatic report at the end of `upload_images` (app.py:136-156) is not modelled. It writes a PDF into the reports folder and flashes a message. Once the PDF is written it also sets `session['last_report_filename']`, which `App.Server` does not hold. Any exception it raises is caught at app.py:158-159 and only flashed; this includes the `UnboundLocalError` of `PdfReport.UnboundBaseLabelFails`. The session's `uploaded_images` (app.py:107) and `img_results` (app.py:133) are stored before the report starts, so the session fields `App.Server.UploadImages` states are the same whether the report succeeds or fails.
- The PDF layout is not modelled: fonts, margins, the logo, the patient header, date and time, image placement, separators, `_to_latin1`, the symptoms table and the disclaimer.
- The PDF's file write is not modelled. Its success is the `pdfWritten` input of `App.GenerateReport`.
- When generate_pdf_report is given no output path it raises on the undefined `REPORTS_FOLDER`. That path is not modelled, because the application always passes a path.
- `os.path.exists` and `os.remove` are modelled by a set of resolved file paths. BASE_DIR is a parameter of `App.Server`.
- Symbolic links are not followed: a path is resolved from its text alone.
- `App.Walk`: a ".." is applied to the text whatever name comes before it. The system fails on a path that passes through a missing name or a file, so `os.path.exists` is False. Folders are not modelled, so `App.Resolve`, `App.ServeImage` and `App.Server.DeleteFile` do not capture this. For "uploads/zz/../<name>" with no folder `zz`, the model sends the stored file, while the source answers 404.
- `App.Server.UploadImages`: the report PDF that the automatic report writes as app/reports/report_<hex>.pdf under BASE_DIR (app.py:146-149) is not in `files`. The contract's `files` holds only the uploads and annotated images.
- `App.ServeImage`: folders are not in the set of files. A name that resolves to a folder ("uploads/" itself, say) answers not found here. In the source, `os.path.exists` holds for it and `send_file` raises, which answers 500.
- `App.ServeImage`: the model does not say which URLs reach `serve_image` with ".." intact. Flask's routing and the client's own normalisation of the URL are not modelled.
- Only JSON request bodies whose `selected_items` is a list of strings are modelled. A non-string item, or a body that is not an object, would raise in `split` or `get`.
- `Text.NatToString`: CPython's `str()` of an integer above 4300 digits raises ValueError. This is not modelled. `App.GetSelectionOptions` and the id lemmas require at most 4300 digits instead; no results list comes near that size.
- Text is ASCII. Python's Unicode case mapping and white space classes are not modelled.
- `app/static/js/script.js` is not part of this model.

## Findings

| source | as written | input that shows it | evidently intended | confidence | as-written member | corrected member |
|---|---|---|---|---|---|---|
| Orthopedic-Health-AI-Scan-Application/app/app.py:297-304 | the fallback joins the requested name to UPLOAD_FOLDER, then to PROCESSED_FOLDER, and sends whatever existing file the result resolves to | "../config.py" (sent as "..%2Fconfig.py") resolves to app/config.py, and that file is sent | serve only files inside the uploads and processed folders | not executed | App.ServeImageEscapes | App.ServeImageWithin |

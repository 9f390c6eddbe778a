/** The request-level logic of app/app.py: the upload filter, the results
    list built after an upload, the selection options and their ids, the
    clinical details panel, the parsing of a report request, the mapping of
    stored paths to folders and the deletion of a result. The Flask session
    is the `Server` class; the files on disk are a set of resolved paths. */
module App {
  import opened Wrappers
  import opened Text
  import Config
  import YoloUtils
  import PdfReport

  // ---------------------------------------------------------------- allowed_file

  /** allowed_file(filename, file_type): `None` (falsy) for any type other
      than "image". */
  function AllowedFile(filename: string, fileType: string): (r: Option<bool>)
    ensures r.None? <==> fileType != "image"
  {
    if fileType != "image" then None
    else Some('.' in filename && Lower(RSplitTail(filename, '.')) in Config.AllowedImageExtensions)
  }

  /** A name with an extension is accepted exactly when the extension, in
      any case, is png, jpg or jpeg; whatever comes before the last dot,
      dots included, does not matter. */
  lemma AllowedFileExtension(name: string, ext: string)
    requires '.' !in ext
    ensures AllowedFile(name + "." + ext, "image") == Some(Lower(ext) in {"png", "jpg", "jpeg"})
  {
    ExtensionOf(name, ext);
  }

  /** The extension `allowed_file` looks at is the text after the last dot. */
  lemma ExtensionOf(name: string, ext: string)
    requires '.' !in ext
    ensures '.' in name + "." + ext
    ensures RSplitTail(name + "." + ext, '.') == ext
  {
    var f := name + "." + ext;
    assert f == name + ['.'] + ext;
    assert f[|name|] == '.';
    RSplitTailAfterLast(name, '.', ext);
  }

  /** The text after the last `c` is what follows a `c` that has none after it. */
  lemma {:induction false} RSplitTailAfterLast(pre: string, c: char, post: string)
    requires c !in post
    ensures RSplitTail(pre + [c] + post, c) == post
    decreases |post|
  {
    var s := pre + [c] + post;
    if post != [] {
      var n := |post| - 1;
      assert s[..|s| - 1] == pre + [c] + post[..n];
      assert post[n] in post;
      RSplitTailAfterLast(pre, c, post[..n]);
      assert post[..n] + [post[n]] == post;
    }
  }

  /** A name without a dot is refused. */
  lemma NoExtensionRefused(filename: string)
    requires '.' !in filename
    ensures AllowedFile(filename, "image") == Some(false)
  {
  }

  // ---------------------------------------------------------------- stored paths

  datatype Folder = UploadFolder | ProcessedFolder

  /** A file on disk: the folder and the name relative to it. */
  type Location = (Folder, string)

  const UploadsPrefix: string := "uploads/"
  const ProcessedPrefix: string := "processed/"

  /** Where `delete_file` looks for a stored path: `None` when the path has
      neither prefix. `str.replace` removes every occurrence of the prefix. */
  function StoredLocation(path: string): (r: Option<Location>)
    ensures StartsWith(path, UploadsPrefix) ==> r == Some((UploadFolder, RemoveAll(path, UploadsPrefix)))
    ensures !StartsWith(path, UploadsPrefix) && StartsWith(path, ProcessedPrefix) ==>
      r == Some((ProcessedFolder, RemoveAll(path, ProcessedPrefix)))
    ensures !StartsWith(path, UploadsPrefix) && !StartsWith(path, ProcessedPrefix) ==> r.None?
  {
    if StartsWith(path, UploadsPrefix) then Some((UploadFolder, RemoveAll(path, UploadsPrefix)))
    else if StartsWith(path, ProcessedPrefix) then Some((ProcessedFolder, RemoveAll(path, ProcessedPrefix)))
    else None
  }

  // ---------------------------------------------------------------- paths on disk

  /** A file or folder on disk: the names from the root down. */
  type Path = seq<string>

  /** A name the system treats as a step down into a folder. */
  predicate IsName(n: string) {
    n != "" && n != "." && n != ".." && '/' !in n
  }

  /** A path as the system resolves it: proper names only. */
  predicate Resolved(p: Path) {
    forall i :: 0 <= i < |p| ==> IsName(p[i])
  }

  /** `s.split('/')`: the pieces between the slashes, empty ones included. */
  function SplitPath(s: string): (r: seq<string>)
    ensures |r| > 0
    ensures forall i :: 0 <= i < |r| ==> '/' !in r[i]
    ensures '/' !in s ==> r == [s]
    decreases |s|
  {
    match SplitOnce(s, '/')
    case None => [s]
    case Some((a, b)) => [a] + SplitPath(b)
  }

  /** Where the names lead from `dir`: an empty name and "." stay, ".."
      goes up one folder (the root is its own parent), any other name goes
      down into it. */
  function Walk(dir: Path, names: seq<string>): (r: Path)
    requires forall i :: 0 <= i < |names| ==> '/' !in names[i]
    ensures Resolved(dir) ==> Resolved(r)
    decreases |names|
  {
    if names == [] then dir
    else
      var n := names[0];
      var next :=
        if n == "" || n == "." then dir
        else if n == ".." then (if dir == [] then [] else dir[..|dir| - 1])
        else dir + [n];
      Walk(next, names[1..])
  }

  /** The file `os.path.join(dir, rel)` names once the system resolves it
      on opening: a `rel` starting with "/" starts again from the root. */
  function Resolve(dir: Path, rel: string): (r: Path)
    ensures Resolved(dir) ==> Resolved(r)
  {
    if |rel| > 0 && rel[0] == '/' then Walk([], SplitPath(rel)) else Walk(dir, SplitPath(rel))
  }

  /** A proper name is the file of that name inside the folder. */
  lemma ResolveName(dir: Path, name: string)
    requires IsName(name)
    ensures Resolve(dir, name) == dir + [name]
  {
    assert name[0] in name;
    assert SplitPath(name) == [name];
    assert Walk(dir + [name], []) == dir + [name];
    assert [name][1..] == [];
  }

  /** "../" followed by a name splits into ".." and the name. */
  lemma SplitPathUp(name: string)
    requires IsName(name)
    ensures SplitPath("../" + name) == ["..", name]
  {
    assert "../" + name == ".." + ['/'] + name;
    SplitAtFirst("..", '/', name);
  }

  /** "../" and a name lead to that name in the parent folder. */
  lemma ResolveUp(dir: Path, name: string)
    requires IsName(name) && |dir| > 0
    ensures Resolve(dir, "../" + name) == dir[..|dir| - 1] + [name]
  {
    var rel := "../" + name;
    assert rel[0] == '.';
    SplitPathUp(name);
    var up := dir[..|dir| - 1];
    assert ["..", name][1..] == [name] && [name][1..] == [];
    assert Walk(up + [name], []) == up + [name];
    assert Walk(up, [name]) == up + [name];
  }

  /** UPLOAD_FOLDER and PROCESSED_FOLDER: app/uploads and app/processed
      under BASE_DIR. */
  function FolderPath(base: Path, f: Folder): Path {
    base + ["app", if f == UploadFolder then "uploads" else "processed"]
  }

  /** The file a folder and a name relative to it denote under BASE_DIR. */
  function PathOf(base: Path, loc: Location): Path {
    Resolve(FolderPath(base, loc.0), loc.1)
  }

  /** `p` lies inside the folder `dir`. */
  predicate Within(dir: Path, p: Path) {
    |p| > |dir| && p[..|dir|] == dir
  }

  /** The answer of serve_image. */
  datatype Served = Sent(path: Path) | ImageNotFound

  /** The file `name` resolves to from `folder`, when it exists; `confined`
      also demands that the file lie inside that folder. */
  function Lookup(base: Path, folder: Folder, name: string, files: set<Path>, confined: bool): (r: Option<Path>)
    ensures r.Some? ==> r.value == PathOf(base, (folder, name)) && r.value in files
    ensures r.Some? && confined ==> Within(FolderPath(base, folder), r.value)
    ensures r.None? ==> PathOf(base, (folder, name)) !in files || (confined && !Within(FolderPath(base, folder), PathOf(base, (folder, name))))
  {
    var p := PathOf(base, (folder, name));
    if p in files && (!confined || Within(FolderPath(base, folder), p)) then Some(p) else None
  }

  /** The lookups of serve_image: the folder a prefix names, otherwise
      uploads and then processed. */
  function Serve(base: Path, filename: string, files: set<Path>, confined: bool): Served {
    match StoredLocation(filename)
    case Some(loc) =>
      (match Lookup(base, loc.0, loc.1, files, confined) case Some(p) => Sent(p) case None => ImageNotFound)
    case None =>
      match Lookup(base, UploadFolder, filename, files, confined)
      case Some(p) => Sent(p)
      case None =>
        match Lookup(base, ProcessedFolder, filename, files, confined)
        case Some(p) => Sent(p)
        case None => ImageNotFound
  }

  /** serve_image(filename): a prefixed name goes to its folder; any other
      name is looked for in the uploads folder, then in the processed one.
      The joined path is resolved, ".." included, before it is tested. */
  function ServeImage(base: Path, filename: string, files: set<Path>): (r: Served)
    ensures r.Sent? ==> r.path in files
    ensures StoredLocation(filename).Some? ==>
      var p := PathOf(base, StoredLocation(filename).value);
      (r.Sent? <==> p in files) && (r.Sent? ==> r.path == p)
    ensures StoredLocation(filename).None? ==>
      var up := PathOf(base, (UploadFolder, filename));
      var pp := PathOf(base, (ProcessedFolder, filename));
      && (up in files ==> r == Sent(up))
      && (up !in files ==> r == if pp in files then Sent(pp) else ImageNotFound)
  {
    Serve(base, filename, files, false)
  }

  /** serve_image as evidently meant: a file is sent only from inside the
      folder it is looked up in, so ".." reaches nothing else. */
  function ServeImageWithin(base: Path, filename: string, files: set<Path>): (r: Served)
    ensures r.Sent? ==> r.path in files
    ensures r.Sent? ==> Within(FolderPath(base, UploadFolder), r.path) || Within(FolderPath(base, ProcessedFolder), r.path)
  {
    Serve(base, filename, files, true)
  }

  /** A stored upload name, which has no "/", maps back to that name in the
      uploads folder; likewise for the processed folder. */
  lemma StoredNameRoundTrip(name: string)
    requires '/' !in name
    ensures StoredLocation(UploadsPrefix + name) == Some((UploadFolder, name))
    ensures StoredLocation(ProcessedPrefix + name) == Some((ProcessedFolder, name))
  {
    var u := UploadsPrefix + name;
    assert u[..|UploadsPrefix|] == UploadsPrefix;
    RemoveAllPrefix(UploadsPrefix, name);
    RemoveAllAbsent(name, UploadsPrefix);
    var p := ProcessedPrefix + name;
    assert p[..|ProcessedPrefix|] == ProcessedPrefix;
    assert p[..|UploadsPrefix|] != UploadsPrefix by {
      assert p[0] == 'p' && UploadsPrefix[0] == 'u';
    }
    RemoveAllPrefix(ProcessedPrefix, name);
    RemoveAllAbsent(name, ProcessedPrefix);
  }

  /** Every occurrence of the prefix is removed, not only the leading one:
      a doubled prefix leaves the bare name. */
  lemma ReplaceRemovesRepeatedPrefix(name: string)
    requires '/' !in name
    ensures StoredLocation(UploadsPrefix + UploadsPrefix + name) == Some((UploadFolder, name))
  {
    var path := UploadsPrefix + UploadsPrefix + name;
    assert path == UploadsPrefix + (UploadsPrefix + name);
    assert path[..|UploadsPrefix|] == UploadsPrefix;
    RemoveAllPrefix(UploadsPrefix, UploadsPrefix + name);
    RemoveAllPrefix(UploadsPrefix, name);
    RemoveAllAbsent(name, UploadsPrefix);
  }

  /** A name without "/" has neither prefix. */
  lemma SlashFreeUnprefixed(name: string)
    requires '/' !in name
    ensures StoredLocation(name).None?
  {
    if |name| >= |UploadsPrefix| {
      assert name[|UploadsPrefix| - 1] != UploadsPrefix[|UploadsPrefix| - 1];
    }
    if |name| >= |ProcessedPrefix| {
      assert name[|ProcessedPrefix| - 1] != ProcessedPrefix[|ProcessedPrefix| - 1];
    }
  }

  /** On the names the application stores, serve_image and its confined
      form send the same file. */
  lemma ServeWithinAgrees(base: Path, name: string, files: set<Path>)
    requires IsName(name)
    ensures ServeImageWithin(base, UploadsPrefix + name, files) == ServeImage(base, UploadsPrefix + name, files)
    ensures ServeImageWithin(base, ProcessedPrefix + name, files) == ServeImage(base, ProcessedPrefix + name, files)
    ensures ServeImageWithin(base, name, files) == ServeImage(base, name, files)
  {
    StoredNameRoundTrip(name);
    SlashFreeUnprefixed(name);
    ResolveName(FolderPath(base, UploadFolder), name);
    ResolveName(FolderPath(base, ProcessedFolder), name);
    assert (base + ["app", "uploads"] + [name])[..|base| + 2] == base + ["app", "uploads"];
    assert (base + ["app", "processed"] + [name])[..|base| + 2] == base + ["app", "processed"];
  }

  /** "../<name>" has no prefix, and from either folder it resolves to
      app/<name>: serve_image sends that file, which lies in neither folder
      (app/config.py, say), while the confined form refuses it. */
  lemma ServeImageEscapes(base: Path, name: string, files: set<Path>)
    requires IsName(name) && name != "uploads" && name != "processed"
    requires base + ["app", name] in files
    ensures ServeImage(base, "../" + name, files) == Sent(base + ["app", name])
    ensures !Within(FolderPath(base, UploadFolder), base + ["app", name])
    ensures !Within(FolderPath(base, ProcessedFolder), base + ["app", name])
    ensures ServeImageWithin(base, "../" + name, files) == ImageNotFound
  {
    var rel := "../" + name;
    assert rel[0] != UploadsPrefix[0] && rel[0] != ProcessedPrefix[0];
    assert StoredLocation(rel).None?;
    var target := base + ["app", name];
    var up := FolderPath(base, UploadFolder);
    var pp := FolderPath(base, ProcessedFolder);
    ResolveUp(up, name);
    ResolveUp(pp, name);
    assert up[..|up| - 1] == base + ["app"] && pp[..|pp| - 1] == base + ["app"];
    assert base + ["app"] + [name] == target;
    assert target[|base| + 1] != up[|base| + 1] && target[|base| + 1] != pp[|base| + 1];
  }

  // ---------------------------------------------------------------- results

  /** What upload_images keeps for an uploaded image whose body part was
      detected: `annotatedPath` is `None` when saving the annotated image
      gave nothing. */
  datatype UploadedImage = UploadedImage(
    path: string, bodyPart: string, labelText: string, confidence: real, annotatedPath: Option<string>)

  /** One entry of `img_results`. */
  datatype ImageResult = ImageResult(
    id: nat, originalPath: string, annotatedPath: string, labelText: string, bodyPart: string,
    confidence: real, kind: string, findings: string, tests: string)

  const NoSpecificFindings: string := "No specific findings available"
  const NoSpecificRisks: string := "No specific risks available"
  const NoSpecificTests: string := "No specific tests available"

  /** The result for the uploaded image at position `i`. */
  function ResultFor(t: PdfReport.Templates, i: nat, u: UploadedImage): (r: ImageResult)
    requires u.annotatedPath.Some?
    ensures r.id == i && r.kind == "image"
    ensures r.originalPath == u.path && r.annotatedPath == u.annotatedPath.value
    ensures r.labelText == u.labelText && r.bodyPart == u.bodyPart && r.confidence == u.confidence
    ensures r.findings == Config.Get(t.findings, u.labelText, NoSpecificFindings)
    ensures r.tests == Config.Get(t.tests, u.labelText, NoSpecificTests)
  {
    ImageResult(i, u.path, u.annotatedPath.value, u.labelText, u.bodyPart, u.confidence, "image",
      Config.Get(t.findings, u.labelText, NoSpecificFindings),
      Config.Get(t.tests, u.labelText, NoSpecificTests))
  }

  /** The results of the uploaded images, in order, without those that have
      no annotated image. */
  function ResultsOf(t: PdfReport.Templates, uploaded: seq<UploadedImage>): seq<ImageResult>
    decreases |uploaded|
  {
    if uploaded == [] then []
    else
      var n := |uploaded| - 1;
      ResultsOf(t, uploaded[..n]) + (if uploaded[n].annotatedPath.Some? then [ResultFor(t, n, uploaded[n])] else [])
  }

  /** The loop of upload_images that builds `img_results`. */
  method BuildResults(t: PdfReport.Templates, uploaded: seq<UploadedImage>) returns (results: seq<ImageResult>)
    ensures results == ResultsOf(t, uploaded)
  {
    results := [];
    var i := 0;
    while i < |uploaded|
      invariant 0 <= i <= |uploaded|
      invariant results == ResultsOf(t, uploaded[..i])
    {
      assert uploaded[..i + 1][..i] == uploaded[..i];
      if uploaded[i].annotatedPath.Some? {
        results := results + [ResultFor(t, i, uploaded[i])];
      }
      i := i + 1;
    }
    assert uploaded[..i] == uploaded;
  }

  /** Every result is the result of the uploaded image its id names, and
      that image has an annotated image. */
  lemma {:induction false} ResultsNameTheirUpload(t: PdfReport.Templates, uploaded: seq<UploadedImage>)
    ensures var rs := ResultsOf(t, uploaded);
      && |rs| <= |uploaded|
      && forall k :: 0 <= k < |rs| ==>
           rs[k].id < |uploaded| && uploaded[rs[k].id].annotatedPath.Some?
           && rs[k] == ResultFor(t, rs[k].id, uploaded[rs[k].id])
    decreases |uploaded|
  {
    if uploaded != [] {
      var n := |uploaded| - 1;
      var init := uploaded[..n];
      ResultsNameTheirUpload(t, init);
      var prev := ResultsOf(t, init);
      var rs := ResultsOf(t, uploaded);
      forall k | 0 <= k < |rs|
        ensures rs[k].id < |uploaded| && uploaded[rs[k].id].annotatedPath.Some?
        ensures rs[k] == ResultFor(t, rs[k].id, uploaded[rs[k].id])
      {
        if k < |prev| {
          assert rs[k] == prev[k];
          assert init[prev[k].id] == uploaded[prev[k].id];
        }
      }
    }
  }

  /** The ids of the results increase strictly. */
  lemma {:induction false} ResultIdsIncrease(t: PdfReport.Templates, uploaded: seq<UploadedImage>)
    ensures var rs := ResultsOf(t, uploaded);
      forall j, k :: 0 <= j < k < |rs| ==> rs[j].id < rs[k].id
    decreases |uploaded|
  {
    if uploaded != [] {
      var n := |uploaded| - 1;
      var init := uploaded[..n];
      ResultIdsIncrease(t, init);
      ResultsNameTheirUpload(t, init);
      var prev := ResultsOf(t, init);
      var rs := ResultsOf(t, uploaded);
      forall j, k | 0 <= j < k < |rs| ensures rs[j].id < rs[k].id {
        assert rs[j] == prev[j];
        if k < |prev| {
          assert rs[k] == prev[k];
        }
      }
    }
  }

  /** Some result carries the id `i`. */
  predicate HasResultWithId(rs: seq<ImageResult>, i: nat) {
    exists k :: 0 <= k < |rs| && rs[k].id == i
  }

  /** Every uploaded image with an annotated image has a result: with the two
      lemmas above, ids are positions in the upload, with gaps where an image
      was dropped. */
  lemma {:induction false} AnnotatedUploadsHaveResults(t: PdfReport.Templates, uploaded: seq<UploadedImage>)
    ensures forall i :: 0 <= i < |uploaded| && uploaded[i].annotatedPath.Some? ==>
      HasResultWithId(ResultsOf(t, uploaded), i)
    decreases |uploaded|
  {
    if uploaded != [] {
      var n := |uploaded| - 1;
      var init := uploaded[..n];
      AnnotatedUploadsHaveResults(t, init);
      var prev := ResultsOf(t, init);
      var rs := ResultsOf(t, uploaded);
      forall i | 0 <= i < |uploaded| && uploaded[i].annotatedPath.Some?
        ensures HasResultWithId(rs, i)
      {
        if i < n {
          assert init[i] == uploaded[i];
          assert HasResultWithId(prev, i);
          var k :| 0 <= k < |prev| && prev[k].id == i;
          assert rs[k] == prev[k];
        } else {
          assert rs == prev + [ResultFor(t, n, uploaded[n])];
          assert rs[|prev|].id == i;
        }
      }
    }
  }

  /** When every uploaded image has an annotated image the ids are exactly
      0, 1, 2, ... */
  lemma {:induction false} ResultsWithoutGaps(t: PdfReport.Templates, uploaded: seq<UploadedImage>)
    requires forall i :: 0 <= i < |uploaded| ==> uploaded[i].annotatedPath.Some?
    ensures |ResultsOf(t, uploaded)| == |uploaded|
    ensures forall k :: 0 <= k < |uploaded| ==> ResultsOf(t, uploaded)[k].id == k
    decreases |uploaded|
  {
    if uploaded != [] {
      var n := |uploaded| - 1;
      assert forall i :: 0 <= i < n ==> uploaded[..n][i] == uploaded[i];
      ResultsWithoutGaps(t, uploaded[..n]);
    }
  }

  // ---------------------------------------------------------------- selection options

  /** One entry of get_selection_options. */
  datatype SelectionOption = SelectionOption(
    id: string, caption: string, kind: string, index: nat, originalPath: string, annotatedPath: string)

  /** f"img_{i}" */
  function SelectionId(i: nat): string {
    "img_" + NatToString(i)
  }

  /** The option offered for the result at position `i`. */
  function OptionFor(i: nat, r: ImageResult): SelectionOption {
    SelectionOption(SelectionId(i), "Image " + NatToString(i + 1) + " (" + r.labelText + ")", "image", i,
      r.originalPath, r.annotatedPath)
  }

  /** get_selection_options: one option per result, in order; every id it
      offers is accepted by generate_report and names that same result. */
  method GetSelectionOptions(results: seq<ImageResult>) returns (options: seq<SelectionOption>)
    requires |NatToString(|results|)| <= MaxStrDigits
    ensures |options| == |results|
    ensures forall i :: 0 <= i < |results| ==> options[i] == OptionFor(i, results[i])
    ensures forall i :: 0 <= i < |results| ==> ResolveItem(options[i].id, |results|) == Success(i)
  {
    options := [];
    var i := 0;
    while i < |results|
      invariant 0 <= i <= |results|
      invariant |options| == i
      invariant forall j :: 0 <= j < i ==> options[j] == OptionFor(j, results[j])
    {
      options := options + [OptionFor(i, results[i])];
      i := i + 1;
    }
    forall j | 0 <= j < |results| ensures ResolveItem(options[j].id, |results|) == Success(j) {
      NatToStringLengthMonotone(j, |results|);
      SelectionIdRoundTrip(j, |results|);
    }
  }

  // ---------------------------------------------------------------- generate_report items

  /** Why an item of a report request is refused; each carries the item. */
  datatype ItemError =
    | InvalidItemFormat(item: string)
    | InvalidItemType(item: string)
    | InvalidItemIndex(item: string)

  /** The position in the results that a selected item names, in the order
      generate_report checks it: split at the first "_" and `int()` of the
      rest (a failure of either, or a negative index past the start, is a
      format error), then the type, then `index >= len`. A negative index
      that passes counts from the end, as Python indexing does. */
  function ResolveItem(item: string, count: nat): (r: Result<nat, ItemError>)
    ensures r.Success? ==> r.value < count
    ensures r.Failure? ==> r.error.item == item
  {
    match SplitOnce(item, '_')
    case None => Failure(InvalidItemFormat(item))
    case Some((itemType, rest)) => ResolveIndex(item, itemType, ParseInt(rest), count)
  }

  /** The checks after the split, given what `int()` made of the index
      (`None` where it raised). */
  function ResolveIndex(item: string, itemType: string, index: Option<int>, count: nat): (r: Result<nat, ItemError>)
    ensures r.Success? ==> r.value < count
    ensures r.Failure? ==> r.error.item == item
    ensures index.None? ==> r == Failure(InvalidItemFormat(item))
    ensures index.Some? && itemType != "img" ==> r == Failure(InvalidItemType(item))
    ensures index.Some? && itemType == "img" && index.value >= count ==> r == Failure(InvalidItemIndex(item))
    ensures index.Some? && itemType == "img" && index.value < -(count as int) ==> r == Failure(InvalidItemFormat(item))
    ensures index.Some? && itemType == "img" && -(count as int) <= index.value < 0 ==> r == Success(index.value + count)
    ensures index.Some? && itemType == "img" && 0 <= index.value < count ==> r == Success(index.value)
  {
    match index
    case None => Failure(InvalidItemFormat(item))
    case Some(k) =>
      if itemType != "img" then Failure(InvalidItemType(item))
      else if k >= count then Failure(InvalidItemIndex(item))
      else if k < 0 && k + count < 0 then Failure(InvalidItemFormat(item))
      else if k < 0 then Success(k + count)
      else Success(k)
  }

  /** An item without "_" does not split and is a format error. */
  lemma NoSeparatorRefused(item: string, count: nat)
    requires '_' !in item
    ensures ResolveItem(item, count) == Failure(InvalidItemFormat(item))
  {
  }

  /** `a + c + b` splits at its first `c` when `a` has none. */
  lemma SplitAtFirst(a: string, c: char, b: string)
    requires c !in a
    ensures SplitOnce(a + [c] + b, c) == Some((a, b))
  {
    var s := a + [c] + b;
    assert s[|a|] == c;
    assert s[..|a|] == a;
    assert s[|a| + 1..] == b;
  }

  /** The id of an option names its own result. */
  lemma SelectionIdRoundTrip(i: nat, count: nat)
    requires i < count && |NatToString(i)| <= MaxStrDigits
    ensures ResolveItem(SelectionId(i), count) == Success(i)
  {
    SelectionIdParts(i);
    assert ResolveIndex(SelectionId(i), "img", Some(i), count) == Success(i);
  }

  /** An id splits into "img" and the decimal index, which parses back. */
  lemma SelectionIdParts(i: nat)
    requires |NatToString(i)| <= MaxStrDigits
    ensures SplitOnce(SelectionId(i), '_') == Some(("img", NatToString(i)))
    ensures ParseInt(NatToString(i)) == Some(i as int)
  {
    var d := NatToString(i);
    assert SelectionId(i) == "img" + ['_'] + d;
    SplitAtFirst("img", '_', d);
    NatToStringValue(i);
    ParseDigits(d);
  }

  /** "img_-<n>" passes the bound check and names the n-th result from the end. */
  lemma NegativeIndexFromEnd(n: nat, count: nat)
    requires 1 <= n <= count && |NatToString(n)| <= MaxStrDigits
    ensures ResolveItem("img" + "_" + ("-" + NatToString(n)), count) == Success(count - n)
  {
    var d := "-" + NatToString(n);
    assert ParseInt(d) == Some(-(n as int)) by { ParseIntRoundTrip(n); }
    NegativeImageItem(d, n, count);
  }

  /** An image item whose index parses to `-n`, with `1 <= n <= count`,
      names the n-th result from the end. */
  lemma NegativeImageItem(rest: string, n: nat, count: nat)
    requires ParseInt(rest) == Some(-(n as int)) && 1 <= n <= count
    ensures ResolveItem("img" + "_" + rest, count) == Success(count - n)
  {
    ItemParts("img", rest, count);
  }

  /** Any other type is refused once the index parses. */
  lemma OtherTypeRefused(itemType: string, i: nat, count: nat)
    requires '_' !in itemType && itemType != "img" && |NatToString(i)| <= MaxStrDigits
    ensures ResolveItem(itemType + "_" + NatToString(i), count) == Failure(InvalidItemType(itemType + "_" + NatToString(i)))
  {
    ParseIntRoundTrip(i);
    ItemParts(itemType, NatToString(i), count);
  }

  /** An item whose type has no "_" is judged on that type and on what
      `int()` makes of the rest. */
  lemma ItemParts(itemType: string, rest: string, count: nat)
    requires '_' !in itemType
    ensures ResolveItem(itemType + "_" + rest, count) == ResolveIndex(itemType + "_" + rest, itemType, ParseInt(rest), count)
  {
    assert itemType + "_" + rest == itemType + ['_'] + rest;
    SplitAtFirst(itemType, '_', rest);
  }

  /** An index that `int()` refuses is a format error, whatever the type
      before the "_": the parse comes before the type check. */
  lemma NonIntegerIndexRefused(itemType: string, rest: string, count: nat)
    requires '_' !in itemType && ParseInt(rest).None?
    ensures ResolveItem(itemType + "_" + rest, count) == Failure(InvalidItemFormat(itemType + "_" + rest))
  {
    ItemParts(itemType, rest, count);
  }

  /** An index of more than MaxStrDigits digits is a format error, even
      when its value is small: `int()` refuses it before the type and
      bound checks run. */
  lemma LongIndexIsFormatError(digits: string, count: nat)
    requires |digits| > MaxStrDigits && AllDigits(digits)
    ensures ResolveItem("img" + "_" + digits, count) == Failure(InvalidItemFormat("img" + "_" + digits))
  {
    TooManyDigitsRefused(digits);
    NonIntegerIndexRefused("img", digits, count);
  }

  /** For example "abc_x" is a format error, not a type error. */
  lemma LetterIndexIsFormatError(count: nat)
    ensures ResolveItem("abc_x", count) == Failure(InvalidItemFormat("abc_x"))
  {
    ParseRefusesNonDigit('x');
    assert "x" == ['x'];
    assert '_' !in "abc";
    NonIntegerIndexRefused("abc", "x", count);
  }

  /** An index at or past the end is refused. */
  lemma IndexPastEndRefused(i: nat, count: nat)
    requires i >= count && |NatToString(i)| <= MaxStrDigits
    ensures ResolveItem(SelectionId(i), count) == Failure(InvalidItemIndex(SelectionId(i)))
  {
    SelectionIdParts(i);
    assert ResolveIndex(SelectionId(i), "img", Some(i), count) == Failure(InvalidItemIndex(SelectionId(i)));
  }

  /** The report entry of a result. */
  function SelectedOf(r: ImageResult): PdfReport.SelectedImage {
    PdfReport.SelectedImage(r.originalPath, r.annotatedPath, r.labelText)
  }

  /** What each item of a request resolves to. */
  function ResolveAll(items: seq<string>, count: nat): (r: seq<Result<nat, ItemError>>)
    ensures |r| == |items| && InRange(r, count)
    ensures forall i :: 0 <= i < |items| ==> r[i] == ResolveItem(items[i], count)
  {
    seq(|items|, i requires 0 <= i < |items| => ResolveItem(items[i], count))
  }

  /** The images that resolved items select, in order, or the first error. */
  function Pick(resolved: seq<Result<nat, ItemError>>, results: seq<ImageResult>): Result<seq<PdfReport.SelectedImage>, ItemError>
    requires InRange(resolved, |results|)
    decreases |resolved|
  {
    if resolved == [] then Success([])
    else
      var n := |resolved| - 1;
      var prev := Pick(resolved[..n], results);
      if prev.Failure? then prev
      else if resolved[n].Failure? then Failure(resolved[n].error)
      else Success(prev.value + [SelectedOf(results[resolved[n].value])])
  }

  /** Every accepted item names a position inside the results. */
  predicate InRange(resolved: seq<Result<nat, ItemError>>, count: nat) {
    forall i :: 0 <= i < |resolved| && resolved[i].Success? ==> resolved[i].value < count
  }

  /** The images of a report request, in the order of its items, or the
      error of the first item that is refused. */
  function SelectImages(items: seq<string>, results: seq<ImageResult>): Result<seq<PdfReport.SelectedImage>, ItemError> {
    Pick(ResolveAll(items, |results|), results)
  }

  /** When every item resolves inside the results, the selection holds, in
      item order, the result each one names. */
  lemma {:induction false} PickInOrder(resolved: seq<Result<nat, ItemError>>, results: seq<ImageResult>)
    requires InRange(resolved, |results|)
    requires forall i :: 0 <= i < |resolved| ==> resolved[i].Success?
    ensures Pick(resolved, results).Success?
    ensures |Pick(resolved, results).value| == |resolved|
    ensures forall i :: 0 <= i < |resolved| ==> Pick(resolved, results).value[i] == SelectedOf(results[resolved[i].value])
    decreases |resolved|
  {
    if resolved != [] {
      var n := |resolved| - 1;
      assert forall i :: 0 <= i < n ==> resolved[..n][i] == resolved[i];
      PickInOrder(resolved[..n], results);
    }
  }

  /** The first error decides the outcome, whatever follows it. */
  lemma {:induction false} PickFirstError(resolved: seq<Result<nat, ItemError>>, results: seq<ImageResult>, k: nat)
    requires InRange(resolved, |results|)
    requires k < |resolved| && resolved[k].Failure?
    requires forall i :: 0 <= i < k ==> resolved[i].Success?
    ensures Pick(resolved, results) == Failure(resolved[k].error)
    decreases |resolved|
  {
    var n := |resolved| - 1;
    if k < n {
      assert forall i :: 0 <= i <= k ==> resolved[..n][i] == resolved[i];
      PickFirstError(resolved[..n], results, k);
    } else {
      assert forall i :: 0 <= i < k ==> resolved[..n][i] == resolved[i];
      PickInOrder(resolved[..n], results);
    }
  }

  /** When every item is accepted the report holds, in item order, the
      result each item names. */
  lemma SelectImagesInOrder(items: seq<string>, results: seq<ImageResult>)
    requires forall i :: 0 <= i < |items| ==> ResolveItem(items[i], |results|).Success?
    ensures SelectImages(items, results).Success?
    ensures |SelectImages(items, results).value| == |items|
    ensures forall i :: 0 <= i < |items| ==>
      SelectImages(items, results).value[i] == SelectedOf(results[ResolveItem(items[i], |results|).value])
  {
    PickInOrder(ResolveAll(items, |results|), results);
  }

  /** The first refused item decides the answer, whatever follows it. */
  lemma FirstRefusedItemAborts(items: seq<string>, results: seq<ImageResult>, k: nat)
    requires k < |items|
    requires forall i :: 0 <= i < k ==> ResolveItem(items[i], |results|).Success?
    requires ResolveItem(items[k], |results|).Failure?
    ensures SelectImages(items, results) == Failure(ResolveItem(items[k], |results|).error)
  {
    PickFirstError(ResolveAll(items, |results|), results, k);
  }

  /** Report requests built from offered ids select exactly the chosen results. */
  lemma OfferedIdsSelect(picks: seq<nat>, results: seq<ImageResult>)
    requires forall i :: 0 <= i < |picks| ==> picks[i] < |results|
    requires |NatToString(|results|)| <= MaxStrDigits
    ensures var items := seq(|picks|, i requires 0 <= i < |picks| => SelectionId(picks[i]));
      && SelectImages(items, results).Success?
      && SelectImages(items, results).value == seq(|picks|, i requires 0 <= i < |picks| => SelectedOf(results[picks[i]]))
  {
    var items := seq(|picks|, i requires 0 <= i < |picks| => SelectionId(picks[i]));
    forall i | 0 <= i < |items| ensures ResolveItem(items[i], |results|) == Success(picks[i]) {
      NatToStringLengthMonotone(picks[i], |results|);
      SelectionIdRoundTrip(picks[i], |results|);
    }
    SelectImagesInOrder(items, results);
  }

  /** The answer of generate_report. */
  datatype ReportResponse =
    | ReportReady(sections: seq<PdfReport.Section>)
    | NeedsPatientInfo
    | NoJsonData
    | NoItemsSelected
    | ItemRefused(error: ItemError)
    | UnexpectedError(cause: PdfReport.ReportError)
    | PdfNotWritten

  /** The request body: `None` when there is none; the "selected_items"
      entry when present. */
  function SelectedItems(data: map<string, seq<string>>): seq<string> {
    Config.Get(data, "selected_items", [])
  }

  /** generate_report as a function of the session, the request body and
      whether writing the PDF file succeeds. */
  function ReportAnswer(t: PdfReport.Templates, hasPatientInfo: bool, data: Option<map<string, seq<string>>>,
                        results: seq<ImageResult>, pdfWritten: bool): ReportResponse
  {
    if !hasPatientInfo then NeedsPatientInfo
    else if data.None? || data.value == map[] then NoJsonData
    else if SelectedItems(data.value) == [] then NoItemsSelected
    else
      match SelectImages(SelectedItems(data.value), results)
      case Failure(e) => ItemRefused(e)
      case Success(sel) =>
        match PdfReport.Render(t, sel)
        case Failure(e) => UnexpectedError(e)
        case Success(sections) => if pdfWritten then ReportReady(sections) else PdfNotWritten
  }

  /** generate_report: the checks, the loop over the selected items, and the
      report. */
  method GenerateReport(t: PdfReport.Templates, hasPatientInfo: bool, data: Option<map<string, seq<string>>>,
                        results: seq<ImageResult>, pdfWritten: bool) returns (response: ReportResponse)
    ensures response == ReportAnswer(t, hasPatientInfo, data, results, pdfWritten)
  {
    if !hasPatientInfo {
      return NeedsPatientInfo;
    }
    if data.None? || data.value == map[] {
      return NoJsonData;
    }
    var items := SelectedItems(data.value);
    if items == [] {
      return NoItemsSelected;
    }
    var selection := SelectItems(items, results);
    if selection.Failure? {
      return ItemRefused(selection.error);
    }
    var report := PdfReport.RenderSections(t, selection.value);
    if report.Failure? {
      return UnexpectedError(report.error);
    }
    response := if pdfWritten then ReportReady(report.value) else PdfNotWritten;
  }

  /** The loop of generate_report over the selected items: each item is
      parsed and its result appended, and the first refused item ends the
      request. */
  method SelectItems(items: seq<string>, results: seq<ImageResult>) returns (r: Result<seq<PdfReport.SelectedImage>, ItemError>)
    ensures r == SelectImages(items, results)
  {
    ghost var resolved := ResolveAll(items, |results|);
    var selected: seq<PdfReport.SelectedImage> := [];
    var i := 0;
    while i < |items|
      invariant 0 <= i <= |items|
      invariant Pick(resolved[..i], results) == Success(selected)
    {
      var k := ResolveItem(items[i], |results|);
      assert k == resolved[i];
      PickStep(resolved, results, i, selected);
      if k.Failure? {
        return Failure(k.error);
      }
      selected := selected + [SelectedOf(results[k.value])];
      i := i + 1;
    }
    assert resolved[..i] == resolved;
    r := Success(selected);
  }

  /** One turn of that loop, on the resolved items. */
  lemma PickStep(resolved: seq<Result<nat, ItemError>>, results: seq<ImageResult>, i: nat, selected: seq<PdfReport.SelectedImage>)
    requires InRange(resolved, |results|)
    requires i < |resolved| && Pick(resolved[..i], results) == Success(selected)
    ensures resolved[i].Failure? ==> Pick(resolved, results) == Failure(resolved[i].error)
    ensures resolved[i].Success? ==>
      Pick(resolved[..i + 1], results) == Success(selected + [SelectedOf(results[resolved[i].value])])
  {
    assert resolved[..i + 1][..i] == resolved[..i];
    if resolved[i].Failure? {
      assert Pick(resolved[..i + 1], results) == Failure(resolved[i].error);
      PickFailureExtends(resolved, results, i + 1);
    }
  }

  /** A selection that succeeds accepted every item. */
  lemma {:induction false} PickAccepted(resolved: seq<Result<nat, ItemError>>, results: seq<ImageResult>)
    requires InRange(resolved, |results|)
    requires Pick(resolved, results).Success?
    ensures forall i :: 0 <= i < |resolved| ==> resolved[i].Success?
    decreases |resolved|
  {
    if resolved != [] {
      var n := |resolved| - 1;
      PickAccepted(resolved[..n], results);
      assert forall i :: 0 <= i < n ==> resolved[..n][i] == resolved[i];
    }
  }

  /** A report is ready only with patient information, a request body and a
      written file; it has one section per selected item, in item order,
      each numbered from 1 and showing the texts of the result its item
      names. */
  lemma ReadyReportFollowsItems(t: PdfReport.Templates, hasPatientInfo: bool, data: Option<map<string, seq<string>>>,
                                results: seq<ImageResult>, pdfWritten: bool)
    requires ReportAnswer(t, hasPatientInfo, data, results, pdfWritten).ReportReady?
    ensures hasPatientInfo && pdfWritten && data.Some?
    ensures var items := SelectedItems(data.value);
      var secs := ReportAnswer(t, hasPatientInfo, data, results, pdfWritten).sections;
      && 0 < |items| == |secs|
      && forall i :: 0 <= i < |items| ==>
           && ResolveItem(items[i], |results|).Success?
           && secs[i].number == i + 1
           && PdfReport.TextsFor(t, secs[i], PdfReport.Classify(results[ResolveItem(items[i], |results|).value].labelText))
  {
    var items := SelectedItems(data.value);
    var resolved := ResolveAll(items, |results|);
    var sel := Pick(resolved, results).value;
    var secs := PdfReport.Render(t, sel).value;
    assert ReportAnswer(t, hasPatientInfo, data, results, pdfWritten) == ReportReady(secs);
    PickedSections(t, resolved, results);
    forall i | 0 <= i < |items|
      ensures ResolveItem(items[i], |results|).Success?
      ensures secs[i].number == i + 1
      ensures PdfReport.TextsFor(t, secs[i], PdfReport.Classify(results[ResolveItem(items[i], |results|).value].labelText))
    {
      assert resolved[i] == ResolveItem(items[i], |results|);
    }
  }

  /** The sections rendered from a successful selection follow the resolved
      items one by one. */
  lemma PickedSections(t: PdfReport.Templates, resolved: seq<Result<nat, ItemError>>, results: seq<ImageResult>)
    requires InRange(resolved, |results|)
    requires Pick(resolved, results).Success? && PdfReport.Render(t, Pick(resolved, results).value).Success?
    ensures var secs := PdfReport.Render(t, Pick(resolved, results).value).value;
      && |secs| == |resolved|
      && forall i :: 0 <= i < |resolved| ==>
           && resolved[i].Success?
           && secs[i].number == i + 1
           && PdfReport.TextsFor(t, secs[i], PdfReport.Classify(results[resolved[i].value].labelText))
  {
    PickAccepted(resolved, results);
    PickInOrder(resolved, results);
    var sel := Pick(resolved, results).value;
    var infos := PdfReport.Infos(sel);
    PdfReport.RenderOrder(t, infos);
    var secs := PdfReport.RenderState(t, infos).value.0;
    forall i | 0 <= i < |resolved|
      ensures PdfReport.TextsFor(t, secs[i], PdfReport.Classify(results[resolved[i].value].labelText))
    {
      assert infos[i] == PdfReport.Classify(sel[i].labelText);
    }
  }

  /** A refused item among the first `n` refuses the whole request. */
  lemma {:induction false} PickFailureExtends(resolved: seq<Result<nat, ItemError>>, results: seq<ImageResult>, n: nat)
    requires InRange(resolved, |results|)
    requires n <= |resolved| && Pick(resolved[..n], results).Failure?
    ensures Pick(resolved, results) == Pick(resolved[..n], results)
    decreases |resolved| - n
  {
    if n == |resolved| {
      assert resolved[..n] == resolved;
    } else {
      assert resolved[..n + 1][..n] == resolved[..n];
      PickFailureExtends(resolved, results, n + 1);
    }
  }

  // ---------------------------------------------------------------- clinical details

  datatype ClinicalDetails = ClinicalDetails(findings: string, risks: string, tests: string)

  datatype DetailsResponse = Details(details: ClinicalDetails) | InvalidSelectionType | InvalidSelection

  /** get_clinical_details(selection_type, index): the label of the result
      is looked up verbatim. */
  function GetClinicalDetails(t: PdfReport.Templates, selectionType: string, index: nat,
                              results: seq<ImageResult>): (r: DetailsResponse)
    ensures selectionType != "image" ==> r == InvalidSelectionType
    ensures selectionType == "image" && index >= |results| ==> r == InvalidSelection
    ensures selectionType == "image" && index < |results| ==> r.Details?
    ensures r.Details? ==>
      && index < |results|
      && r.details.findings == Config.Get(t.findings, results[index].labelText, NoSpecificFindings)
      && r.details.risks == Config.Get(t.risks, results[index].labelText, NoSpecificRisks)
      && r.details.tests == Config.Get(t.tests, results[index].labelText, NoSpecificTests)
  {
    if selectionType != "image" then InvalidSelectionType
    else if index >= |results| then InvalidSelection
    else
      var lbl := results[index].labelText;
      Details(ClinicalDetails(
        Config.Get(t.findings, lbl, NoSpecificFindings),
        Config.Get(t.risks, lbl, NoSpecificRisks),
        Config.Get(t.tests, lbl, NoSpecificTests)))
  }

  /** A knee grade result gets the placeholders in the details panel,
      because the panel looks the prefixed label up verbatim, while the
      report strips the prefix and finds the grade's texts. */
  lemma KneeGradeDetailsDisagree(t: PdfReport.Templates, r: ImageResult, g: string, results: seq<ImageResult>, index: nat)
    requires g in YoloUtils.KneeGrades
    requires r.labelText == YoloUtils.KneePrefix + g + ")"
    requires index < |results| && results[index] == r
    requires YoloUtils.KneeGrades <= t.findings.Keys * t.risks.Keys * t.tests.Keys
    requires r.labelText !in t.findings && r.labelText !in t.risks && r.labelText !in t.tests
    ensures GetClinicalDetails(t, "image", index, results) ==
      Details(ClinicalDetails(NoSpecificFindings, NoSpecificRisks, NoSpecificTests))
    ensures PdfReport.ResolveImage(t, 0, PdfReport.Classify(r.labelText), None).Success?
    ensures PdfReport.ResolveImage(t, 0, PdfReport.Classify(r.labelText), None).value.0.findings == t.findings[g]
  {
    PdfReport.KneeGradesAreWords(g);
    PdfReport.KneeLabelBase(g);
  }

  // ---------------------------------------------------------------- models

  /** The body parts whose detector files exist, in the order of YOLO_MODELS. */
  function LoadedModels(models: seq<(string, string)>, existing: set<string>): seq<string>
    decreases |models|
  {
    if models == [] then []
    else
      var n := |models| - 1;
      LoadedModels(models[..n], existing) + (if models[n].1 in existing then [models[n].0] else [])
  }

  /** The loop of upload_images that loads the detectors. */
  method LoadModels(existing: set<string>) returns (bodyParts: seq<string>)
    ensures bodyParts == LoadedModels(Config.YoloModels, existing)
  {
    var models := Config.YoloModels;
    bodyParts := [];
    var i := 0;
    while i < |models|
      invariant 0 <= i <= |models|
      invariant bodyParts == LoadedModels(models[..i], existing)
    {
      assert models[..i + 1][..i] == models[..i];
      if models[i].1 in existing {
        bodyParts := bodyParts + [models[i].0];
      }
      i := i + 1;
    }
    assert models[..i] == models;
  }

  /** With every detector file present all four load, in the order knee,
      spine, heel, wrist of YOLO_MODELS. */
  lemma AllModelsLoaded()
    ensures LoadedModels(Config.YoloModels, {"app/models/knee.pt", "app/models/spine.pt", "app/models/heel.pt", "app/models/wrist.pt"})
      == ["knee", "spine", "heel", "wrist"]
  {
    var m := Config.YoloModels;
    var e := {"app/models/knee.pt", "app/models/spine.pt", "app/models/heel.pt", "app/models/wrist.pt"};
    assert m[..1][..0] == [];
    assert LoadedModels(m[..1], e) == ["knee"];
    assert m[..2][..1] == m[..1];
    assert LoadedModels(m[..2], e) == ["knee", "spine"];
    assert m[..3][..2] == m[..2];
    assert LoadedModels(m[..3], e) == ["knee", "spine", "heel"];
    assert m[..3] == m[..|m| - 1];
  }

  /** The positions in YOLO_MODELS of the detectors that load. */
  function LoadedIndices(models: seq<(string, string)>, existing: set<string>): seq<nat>
    decreases |models|
  {
    if models == [] then []
    else
      var n := |models| - 1;
      LoadedIndices(models[..n], existing) + (if models[n].1 in existing then [n] else [])
  }

  /** The k-th loaded body part comes from position
      LoadedIndices(models, existing)[k], those positions increase strictly,
      and every entry whose file exists is among them. */
  lemma {:induction false} LoadedInOrder(models: seq<(string, string)>, existing: set<string>)
    ensures var idx := LoadedIndices(models, existing);
      && |idx| == |LoadedModels(models, existing)|
      && (forall k :: 0 <= k < |idx| ==>
            idx[k] < |models| && models[idx[k]].1 in existing && LoadedModels(models, existing)[k] == models[idx[k]].0)
      && (forall j, k :: 0 <= j < k < |idx| ==> idx[j] < idx[k])
      && (forall i :: 0 <= i < |models| && models[i].1 in existing ==> i in idx)
    decreases |models|
  {
    if models != [] {
      var n := |models| - 1;
      var init := models[..n];
      LoadedInOrder(init, existing);
      var prev := LoadedIndices(init, existing);
      var idx := LoadedIndices(models, existing);
      var out := LoadedModels(models, existing);
      assert |idx| == |out|;
      forall k | 0 <= k < |prev|
        ensures idx[k] == prev[k] && models[prev[k]] == init[prev[k]] && out[k] == LoadedModels(init, existing)[k]
      {
      }
      forall i | 0 <= i < |models| && models[i].1 in existing ensures i in idx {
        if i < n {
          assert init[i] == models[i];
          assert i in prev;
        } else {
          assert idx == prev + [n];
        }
      }
    }
  }

  /** The loaded body parts are those whose file exists, keep the configured
      order and only drop entries. */
  lemma LoadedModelsKeepOrder(models: seq<(string, string)>, existing: set<string>)
    ensures |LoadedModels(models, existing)| <= |models|
    ensures forall b :: b in LoadedModels(models, existing) <==>
      exists i :: 0 <= i < |models| && models[i].0 == b && models[i].1 in existing
    ensures var idx := LoadedIndices(models, existing);
      && |idx| == |LoadedModels(models, existing)|
      && (forall k :: 0 <= k < |idx| ==>
            idx[k] < |models| && models[idx[k]].1 in existing && LoadedModels(models, existing)[k] == models[idx[k]].0)
      && (forall j, k :: 0 <= j < k < |idx| ==> idx[j] < idx[k])
      && (forall i :: 0 <= i < |models| && models[i].1 in existing ==> i in idx)
  {
    LoadedInOrder(models, existing);
    var idx := LoadedIndices(models, existing);
    var out := LoadedModels(models, existing);
    forall b ensures b in out <==> exists i :: 0 <= i < |models| && models[i].0 == b && models[i].1 in existing {
      if b in out {
        var k :| 0 <= k < |out| && out[k] == b;
        assert models[idx[k]].0 == b;
      }
      if exists i :: 0 <= i < |models| && models[i].0 == b && models[i].1 in existing {
        var i :| 0 <= i < |models| && models[i].0 == b && models[i].1 in existing;
        var k :| 0 <= k < |idx| && idx[k] == i;
        assert out[k] == b;
      }
    }
    IncreasingBelow(idx, |models|);
  }

  /** Strictly increasing naturals below `bound` are at most `bound` many. */
  lemma {:induction false} IncreasingBelow(idx: seq<nat>, bound: nat)
    requires forall k :: 0 <= k < |idx| ==> idx[k] < bound
    requires forall j, k :: 0 <= j < k < |idx| ==> idx[j] < idx[k]
    ensures |idx| <= bound
    decreases |idx|
  {
    if idx != [] {
      var n := |idx| - 1;
      assert forall k :: 0 <= k < n ==> idx[..n][k] < idx[n];
      IncreasingBelow(idx[..n], idx[n]);
    }
  }

  // ---------------------------------------------------------------- upload

  /** What the upload loop has for one file of the request: the name the
      browser sent, the stored name (a fresh hex id, "_", and the sanitised
      name), what detection gave for it, and the processed name its
      annotated image is saved under when saving succeeded. */
  datatype UploadInput = UploadInput(
    filename: string, storedName: string, detection: YoloUtils.Detection, annotatedName: Option<string>)

  /** What upload_images keeps for one file, if anything. */
  function Uploaded(f: UploadInput): Option<UploadedImage> {
    if AllowedFile(f.filename, "image") != Some(true) then None
    else if !f.detection.Detected? || f.detection.annotation.bodyPart == "" then None
    else
      var a := f.detection.annotation;
      Some(UploadedImage(UploadsPrefix + f.storedName, a.bodyPart, a.labelText, a.conf,
        match f.annotatedName
        case Some(n) => Some(ProcessedPrefix + n)
        case None => None))
  }

  /** A file is kept exactly when its extension is accepted and detection
      named a body part; it keeps its stored path, what detection found, and
      the processed path of its annotated image when saving gave a name. */
  lemma UploadedKeeps(f: UploadInput)
    ensures Uploaded(f).Some? <==>
      AllowedFile(f.filename, "image") == Some(true) && f.detection.Detected? && f.detection.annotation.bodyPart != ""
    ensures Uploaded(f).Some? ==>
      var u := Uploaded(f).value;
      && u.path == UploadsPrefix + f.storedName
      && u.bodyPart == f.detection.annotation.bodyPart
      && u.labelText == f.detection.annotation.labelText
      && u.confidence == f.detection.annotation.conf
      && (u.annotatedPath.Some? <==> f.annotatedName.Some?)
      && (f.annotatedName.Some? ==> u.annotatedPath == Some(ProcessedPrefix + f.annotatedName.value))
  {
  }

  /** What `g` keeps of the files, in file order. */
  function KeptOf(files: seq<UploadInput>, g: UploadInput -> Option<UploadedImage>): (r: seq<UploadedImage>)
    ensures |r| <= |files|
    decreases |files|
  {
    if files == [] then []
    else
      var n := |files| - 1;
      KeptOf(files[..n], g) + (match g(files[n]) case Some(u) => [u] case None => [])
  }

  /** The positions of the files `g` keeps. */
  function KeptIndices(files: seq<UploadInput>, g: UploadInput -> Option<UploadedImage>): seq<nat>
    decreases |files|
  {
    if files == [] then []
    else
      var n := |files| - 1;
      KeptIndices(files[..n], g) + (if g(files[n]).Some? then [n] else [])
  }

  /** The k-th kept value comes from the file at KeptIndices(files, g)[k],
      those positions increase strictly, and every file `g` keeps is among
      them. */
  lemma {:induction false} KeptInOrder(files: seq<UploadInput>, g: UploadInput -> Option<UploadedImage>)
    ensures var idx := KeptIndices(files, g);
      && |idx| == |KeptOf(files, g)|
      && (forall k :: 0 <= k < |idx| ==> idx[k] < |files| && g(files[idx[k]]) == Some(KeptOf(files, g)[k]))
      && (forall j, k :: 0 <= j < k < |idx| ==> idx[j] < idx[k])
      && (forall i :: 0 <= i < |files| && g(files[i]).Some? ==> i in idx)
    decreases |files|
  {
    if files != [] {
      var n := |files| - 1;
      var init := files[..n];
      KeptInOrder(init, g);
      var prev := KeptIndices(init, g);
      var idx := KeptIndices(files, g);
      var r := KeptOf(files, g);
      var last := g(files[n]);
      if last.Some? {
        assert idx == prev + [n] && r == KeptOf(init, g) + [last.value];
      } else {
        assert idx == prev && r == KeptOf(init, g);
      }
      forall k | 0 <= k < |prev|
        ensures idx[k] == prev[k] && r[k] == KeptOf(init, g)[k] && files[prev[k]] == init[prev[k]]
      {
      }
    }
    KeptIndicesComplete(files, g);
  }

  /** Every file `g` keeps has its position among KeptIndices(files, g). */
  lemma {:induction false} KeptIndicesComplete(files: seq<UploadInput>, g: UploadInput -> Option<UploadedImage>)
    ensures forall i :: 0 <= i < |files| && g(files[i]).Some? ==> i in KeptIndices(files, g)
    decreases |files|
  {
    if files != [] {
      var n := |files| - 1;
      var init := files[..n];
      KeptIndicesComplete(init, g);
      var prev := KeptIndices(init, g);
      var idx := KeptIndices(files, g);
      forall i | 0 <= i < |files| && g(files[i]).Some? ensures i in idx {
        if i < n {
          assert init[i] == files[i];
          assert i in prev;
        } else {
          assert idx == prev + [n];
        }
      }
    }
  }

  /** The uploaded images of a request, in file order. */
  function UploadedOf(files: seq<UploadInput>): (r: seq<UploadedImage>)
    ensures |r| <= |files|
  {
    KeptOf(files, Uploaded)
  }

  /** Only files with an accepted extension and a detected body part are kept. */
  lemma {:induction false} UploadedAreAccepted(files: seq<UploadInput>)
    ensures forall u :: u in UploadedOf(files) ==>
      exists f :: f in files && AllowedFile(f.filename, "image") == Some(true) && Uploaded(f) == Some(u)
    decreases |files|
  {
    if files != [] {
      var n := |files| - 1;
      UploadedAreAccepted(files[..n]);
      forall u | u in UploadedOf(files)
        ensures exists f :: f in files && AllowedFile(f.filename, "image") == Some(true) && Uploaded(f) == Some(u)
      {
        if u in UploadedOf(files[..n]) {
          var f :| f in files[..n] && AllowedFile(f.filename, "image") == Some(true) && Uploaded(f) == Some(u);
          assert f in files;
        } else {
          assert files[n] in files;
        }
      }
    }
  }

  /** The uploaded images are the kept files, each once and in file order:
      the k-th image comes from the file at KeptIndices(files, Uploaded)[k],
      those positions increase strictly, and every file that is kept is
      among them. */
  lemma UploadedInFileOrder(files: seq<UploadInput>)
    ensures var idx := KeptIndices(files, Uploaded);
      && |idx| == |UploadedOf(files)|
      && (forall k :: 0 <= k < |idx| ==> idx[k] < |files| && Uploaded(files[idx[k]]) == Some(UploadedOf(files)[k]))
      && (forall j, k :: 0 <= j < k < |idx| ==> idx[j] < idx[k])
      && (forall i :: 0 <= i < |files| && Uploaded(files[i]).Some? ==> i in idx)
  {
    KeptInOrder(files, Uploaded);
  }

  /** The files upload_images saves for one input: the upload itself once
      its extension is accepted, before detection runs, and the annotated
      image when the file is kept and saving gave a name. */
  function WrittenBy(base: Path, f: UploadInput): set<Path> {
    (if AllowedFile(f.filename, "image") == Some(true) then {PathOf(base, (UploadFolder, f.storedName))} else {})
    + (if Uploaded(f).Some? && f.annotatedName.Some? then {PathOf(base, (ProcessedFolder, f.annotatedName.value))} else {})
  }

  /** The union of `g` over the inputs, taken one input at a time. */
  function UnionOver(inputs: seq<UploadInput>, g: UploadInput -> set<Path>): set<Path>
    decreases |inputs|
  {
    if inputs == [] then {}
    else
      var n := |inputs| - 1;
      UnionOver(inputs[..n], g) + g(inputs[n])
  }

  /** The union holds what `g` gives for each input, and nothing else. */
  lemma {:induction false} UnionOverInputs(inputs: seq<UploadInput>, g: UploadInput -> set<Path>)
    ensures forall i :: 0 <= i < |inputs| ==> g(inputs[i]) <= UnionOver(inputs, g)
    ensures forall l :: l in UnionOver(inputs, g) ==> exists i :: 0 <= i < |inputs| && l in g(inputs[i])
    decreases |inputs|
  {
    if inputs != [] {
      var n := |inputs| - 1;
      var init := inputs[..n];
      UnionOverInputs(init, g);
      forall i | 0 <= i < n ensures g(inputs[i]) <= UnionOver(inputs, g) {
        assert init[i] == inputs[i];
      }
      forall l | l in UnionOver(init, g) ensures exists i :: 0 <= i < |inputs| && l in g(inputs[i]) {
        var i :| 0 <= i < n && l in g(init[i]);
        assert init[i] == inputs[i];
      }
    }
  }

  /** The files one request saves. */
  function WrittenFiles(base: Path, inputs: seq<UploadInput>): set<Path> {
    UnionOver(inputs, f => WrittenBy(base, f))
  }

  /** A request saves what each of its inputs saves, and nothing else. */
  lemma WrittenFilesOfInputs(base: Path, inputs: seq<UploadInput>)
    ensures forall i :: 0 <= i < |inputs| ==> WrittenBy(base, inputs[i]) <= WrittenFiles(base, inputs)
    ensures forall l :: l in WrittenFiles(base, inputs) ==> exists i :: 0 <= i < |inputs| && l in WrittenBy(base, inputs[i])
  {
    UnionOverInputs(inputs, f => WrittenBy(base, f));
  }

  /** The stored files of the result made from a kept input are files that
      input saved, given stored names without "/". */
  lemma ResultFilesOfInput(t: PdfReport.Templates, base: Path, m: nat, f: UploadInput)
    requires Uploaded(f).Some? && Uploaded(f).value.annotatedPath.Some?
    requires '/' !in f.storedName && (f.annotatedName.Some? ==> '/' !in f.annotatedName.value)
    ensures StoredFiles(base, ResultFor(t, m, Uploaded(f).value)) <= WrittenBy(base, f)
  {
    UploadedKeeps(f);
    StoredNameRoundTrip(f.storedName);
    StoredNameRoundTrip(f.annotatedName.value);
  }

  /** Every stored file that delete_file removes for a result was saved by
      the upload that made the result, given stored names without "/" (as
      secure_filename makes them). */
  lemma ResultFilesWereWritten(t: PdfReport.Templates, base: Path, inputs: seq<UploadInput>)
    requires forall i :: 0 <= i < |inputs| ==>
      '/' !in inputs[i].storedName && (inputs[i].annotatedName.Some? ==> '/' !in inputs[i].annotatedName.value)
    ensures forall r :: r in ResultsOf(t, UploadedOf(inputs)) ==> StoredFiles(base, r) <= WrittenFiles(base, inputs)
  {
    var u := UploadedOf(inputs);
    var rs := ResultsOf(t, u);
    ResultsNameTheirUpload(t, u);
    UploadedInFileOrder(inputs);
    WrittenFilesOfInputs(base, inputs);
    var idx := KeptIndices(inputs, Uploaded);
    forall r | r in rs ensures StoredFiles(base, r) <= WrittenFiles(base, inputs) {
      var k :| 0 <= k < |rs| && rs[k] == r;
      var m := r.id;
      var f := inputs[idx[m]];
      ResultFilesOfInput(t, base, m, f);
    }
  }

  /** What the session holds and which stored files exist. */
  class Server {
    var uploadedImages: seq<UploadedImage>
    var imgResults: seq<ImageResult>
    /** BASE_DIR, the folder app/ lies in. */
    const base: Path
    var files: set<Path>

    constructor (base0: Path, files0: set<Path>)
      ensures base == base0 && uploadedImages == [] && imgResults == [] && files == files0
    {
      base := base0;
      uploadedImages := [];
      imgResults := [];
      files := files0;
    }

    /** upload_images: every accepted file and every annotated image is
        saved; with at least one image kept, the session holds the new
        uploads and their results, otherwise the session is unchanged. */
    method UploadImages(t: PdfReport.Templates, inputs: seq<UploadInput>) returns (kept: nat)
      modifies this
      ensures kept == |UploadedOf(inputs)|
      ensures kept > 0 ==> uploadedImages == UploadedOf(inputs) && imgResults == ResultsOf(t, UploadedOf(inputs))
      ensures kept == 0 ==> uploadedImages == old(uploadedImages) && imgResults == old(imgResults)
      ensures files == old(files) + WrittenFiles(base, inputs)
    {
      var uploaded: seq<UploadedImage> := [];
      var i := 0;
      while i < |inputs|
        invariant 0 <= i <= |inputs|
        invariant uploaded == UploadedOf(inputs[..i])
        invariant files == old(files) + WrittenFiles(base, inputs[..i])
        invariant uploadedImages == old(uploadedImages) && imgResults == old(imgResults)
      {
        assert inputs[..i + 1][..i] == inputs[..i] && inputs[..i + 1][i] == inputs[i];
        files := files + WrittenBy(base, inputs[i]);
        var u := Uploaded(inputs[i]);
        if u.Some? {
          uploaded := uploaded + [u.value];
        }
        i := i + 1;
      }
      assert inputs[..i] == inputs;
      kept := |uploaded|;
      if kept > 0 {
        uploadedImages := uploaded;
        imgResults := BuildResults(t, uploaded);
      }
    }

    /** delete_file(file_type, index): an index inside the results removes
        that result and its stored files; any other index changes nothing
        and still answers with success. */
    method DeleteFile(fileType: string, index: nat) returns (ok: bool)
      modifies this
      ensures ok <==> fileType == "image"
      ensures fileType == "image" && index < |old(imgResults)| ==>
        imgResults == RemoveAt(old(imgResults), index)
        && files == old(files) - StoredFiles(base, old(imgResults)[index])
      ensures fileType != "image" || index >= |old(imgResults)| ==>
        imgResults == old(imgResults) && files == old(files)
      ensures uploadedImages == old(uploadedImages)
    {
      if fileType != "image" {
        return false;
      }
      if index < |imgResults| {
        var r := imgResults[index];
        files := files - StoredFiles(base, r);
        imgResults := imgResults[..index] + imgResults[index + 1..];
      }
      ok := true;
    }
  }

  /** The stored files of a result that delete_file removes. */
  function StoredFiles(base: Path, r: ImageResult): set<Path> {
    (match StoredLocation(r.originalPath) case Some(l) => {PathOf(base, l)} case None => {})
    + (match StoredLocation(r.annotatedPath) case Some(l) => {PathOf(base, l)} case None => {})
  }

  /** `results.pop(index)` */
  function RemoveAt<T>(s: seq<T>, i: nat): (r: seq<T>)
    requires i < |s|
    ensures |r| == |s| - 1
    ensures forall j :: 0 <= j < i ==> r[j] == s[j]
    ensures forall j :: i <= j < |r| ==> r[j] == s[j + 1]
  {
    s[..i] + s[i + 1..]
  }

  /** Removing an entry takes exactly that entry out. */
  lemma RemoveAtMultiset<T>(s: seq<T>, i: nat)
    requires i < |s|
    ensures multiset(RemoveAt(s, i)) + multiset{s[i]} == multiset(s)
  {
    assert s == s[..i] + [s[i]] + s[i + 1..];
  }
}

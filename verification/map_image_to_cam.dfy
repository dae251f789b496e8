/** The camera-ID mapping script: prefixing image file names and CVAT `<image name=...>` attributes
    with `"<camera id>__"`, keeping a one-time backup of each rewritten annotation file. */
module MapImageToCam {
  import opened Wrappers
  import opened Seqs
  import opened Text
  import opened Xml

  // ---------------------------------------------------------------------------------------------
  // Constants

  /** `BASE_DIR`. */
  const BaseDir: string := "labeling_annotations"

  /** `loc_to_id`: location folder name to camera ID. */
  const LocToId: map<string, nat> := map[
    "fordham_road_hughes_avenue__nysdot-4616552" := 4616552,
    "lenox_avenue_135_street__nysdot-4616578" := 4616578,
    "atlantic_avenue_bqe__nysdot-4616456" := 4616456,
    "atlantic_avenue_vanderbilt_avenue__nysdot-4616457" := 4616457,
    "ocean_parkway_ditmas_avenue__nysdot-4616613" := 4616613,
    "3_avenue_23_street__nysdot-4616409" := 4616409,
    "9_avenue_49_street__nysdot-4616447" := 4616447,
    "amsterdam_avenue_125_street__nysdot-4616453" := 4616453,
    "canal_street_baxter_street__nysdot-4616502" := 4616502,
    "church_street_park_pl__nysdot-4616507" := 4616507,
    "houston_street_bowery_street__nysdot-4616573" := 4616573,
    "hillside_avenue_little_neck_parkway__nysdot-4616571" := 4616571]

  /** `anno_to_id`, in its insertion (iteration) order: annotation file stem to camera ID. */
  const AnnoToId: seq<(string, nat)> := [
    ("label100cars_bx_fordham_annotations", 4616552),
    ("label100cars_bx_lenox_annotations", 4616578),
    ("label100cars_bk_atlbqe_annotations", 4616456)]

  // ---------------------------------------------------------------------------------------------
  // The camera prefix

  /** `f"{cam_id}__"`: the decimal ID followed by two underscores. The digits read back as the ID. */
  function Prefix(camId: nat): (p: string)
    ensures |p| >= 3 && p[|p| - 2..] == "__"
    ensures IsDigits(p[..|p| - 2]) && DecimalValue(p[..|p| - 2]) == camId
    ensures |p| > 3 ==> p[0] != '0'
  {
    DecimalRoundTrip(camId);
    var p := Decimal(camId) + "__";
    assert p[..|p| - 2] == Decimal(camId);
    p
  }

  lemma PrefixIs(camId: nat)
    ensures Prefix(camId) == Decimal(camId) + "__"
  {
  }

  lemma PrefixStartsConcat(prefix: string, n: string)
    ensures StartsWith(prefix + n, prefix)
    ensures (prefix + n)[|prefix|..] == n
  {
    assert (prefix + n)[..|prefix|] == prefix;
  }

  /** The new `name` attribute of one `<image>` (lines 84-99): absent names stay absent, names that
      already carry this camera's prefix are kept, all others get the prefix in front. */
  function NewName(camId: nat, name: Option<string>): (r: Option<string>)
    ensures r.None? <==> name.None?
    ensures r.Some? ==> StartsWith(r.value, Prefix(camId))
    ensures name.Some? && StartsWith(name.value, Prefix(camId)) ==> r == name
    ensures name.Some? && !StartsWith(name.value, Prefix(camId)) ==>
              |r.value| == |Prefix(camId)| + |name.value| && r.value[|Prefix(camId)|..] == name.value
  {
    match name
    case None => None
    case Some(n) =>
      if StartsWith(n, Prefix(camId)) then name
      else
        PrefixStartsConcat(Prefix(camId), n);
        Some(Prefix(camId) + n)
  }

  /** Renaming an already renamed image changes nothing: no double prefix. */
  lemma NewNameIdempotent(camId: nat, name: Option<string>)
    ensures NewName(camId, NewName(camId, name)) == NewName(camId, name)
  {
  }

  // ---------------------------------------------------------------------------------------------
  // Rewriting an annotation tree

  /** `e` and everything below it, with every `image` element renamed. */
  function RenameTree(e: Element, camId: nat): Element
    decreases e
  {
    var children := RenameForest(e.children, camId);
    if e.tag == "image" then e.(name := NewName(camId, e.name), children := children)
    else e.(children := children)
  }

  function RenameForest(cs: seq<Element>, camId: nat): (r: seq<Element>)
    decreases cs
    ensures |r| == |cs|
  {
    if cs == [] then [] else [RenameTree(cs[0], camId)] + RenameForest(cs[1..], camId)
  }

  /** The loop over `root.findall(".//image")`: every `image` strictly below the root is renamed;
      the root itself is not visited, whatever its tag. */
  function UpdateRoot(root: Element, camId: nat): (r: Element)
    ensures r.tag == root.tag && r.name == root.name && r.text == root.text
    ensures r.attributes == root.attributes && |r.children| == |root.children|
  {
    root.(children := RenameForest(root.children, camId))
  }

  /** The `name` attributes of the `image` elements in `e`'s subtree, in document order. */
  function TreeImageNames(e: Element): seq<Option<string>>
    decreases e
  {
    (if e.tag == "image" then [e.name] else []) + ForestImageNames(e.children)
  }

  function ForestImageNames(cs: seq<Element>): seq<Option<string>>
    decreases cs
  {
    if cs == [] then [] else TreeImageNames(cs[0]) + ForestImageNames(cs[1..])
  }

  /** The names `root.findall(".//image")` visits, in order. */
  function ImageNames(root: Element): seq<Option<string>> {
    ForestImageNames(root.children)
  }

  /** `NewName` applied to each name of a list. */
  function NewNames(camId: nat, ns: seq<Option<string>>): (r: seq<Option<string>>)
    ensures |r| == |ns|
    ensures forall i :: 0 <= i < |ns| ==> r[i] == NewName(camId, ns[i])
  {
    seq(|ns|, i requires 0 <= i < |ns| => NewName(camId, ns[i]))
  }

  /** `e`'s subtree with every image name erased: the part of the document the script never changes. */
  function EraseTree(e: Element): Element
    decreases e
  {
    var children := EraseForest(e.children);
    if e.tag == "image" then e.(name := None, children := children) else e.(children := children)
  }

  function EraseForest(cs: seq<Element>): (r: seq<Element>)
    decreases cs
    ensures |r| == |cs|
  {
    if cs == [] then [] else [EraseTree(cs[0])] + EraseForest(cs[1..])
  }

  /** The document with the names of the images below the root erased. */
  function Shape(root: Element): Element {
    root.(children := EraseForest(root.children))
  }

  lemma {:induction false} RenameTreeNames(e: Element, camId: nat)
    decreases e
    ensures TreeImageNames(RenameTree(e, camId)) == NewNames(camId, TreeImageNames(e))
  {
    RenameForestNames(e.children, camId);
  }

  lemma {:induction false} RenameForestNames(cs: seq<Element>, camId: nat)
    decreases cs
    ensures ForestImageNames(RenameForest(cs, camId)) == NewNames(camId, ForestImageNames(cs))
  {
    if cs != [] {
      var r := RenameForest(cs, camId);
      assert r[0] == RenameTree(cs[0], camId) && r[1..] == RenameForest(cs[1..], camId);
      RenameTreeNames(cs[0], camId);
      RenameForestNames(cs[1..], camId);
    }
  }

  /** The names of the updated document are the old names, each passed through `NewName`, in the
      same document order. */
  lemma UpdateRootNames(root: Element, camId: nat)
    ensures ImageNames(UpdateRoot(root, camId)) == NewNames(camId, ImageNames(root))
  {
    RenameForestNames(root.children, camId);
  }

  lemma {:induction false} RenameTreeShape(e: Element, camId: nat)
    decreases e
    ensures EraseTree(RenameTree(e, camId)) == EraseTree(e)
  {
    RenameForestShape(e.children, camId);
  }

  lemma {:induction false} RenameForestShape(cs: seq<Element>, camId: nat)
    decreases cs
    ensures EraseForest(RenameForest(cs, camId)) == EraseForest(cs)
  {
    if cs != [] {
      var r := RenameForest(cs, camId);
      assert r[0] == RenameTree(cs[0], camId) && r[1..] == RenameForest(cs[1..], camId);
      RenameTreeShape(cs[0], camId);
      RenameForestShape(cs[1..], camId);
    }
  }

  /** Apart from image names, the updated document is the original one: tags, text, other
      attributes, nesting and order are untouched. */
  lemma UpdateRootShape(root: Element, camId: nat)
    ensures Shape(UpdateRoot(root, camId)) == Shape(root)
  {
    RenameForestShape(root.children, camId);
  }

  lemma {:induction false} SameShapeSameCount(a: Element, b: Element)
    decreases a
    requires EraseTree(a) == EraseTree(b)
    ensures |TreeImageNames(a)| == |TreeImageNames(b)|
  {
    assert a.tag == b.tag;
    assert EraseForest(a.children) == EraseForest(b.children);
    SameShapeSameCountForest(a.children, b.children);
  }

  lemma {:induction false} SameShapeSameCountForest(as_: seq<Element>, bs: seq<Element>)
    decreases as_
    requires EraseForest(as_) == EraseForest(bs)
    ensures |ForestImageNames(as_)| == |ForestImageNames(bs)|
  {
    if as_ != [] {
      var ea := EraseForest(as_);
      var eb := EraseForest(bs);
      assert ea[0] == EraseTree(as_[0]) && eb[0] == EraseTree(bs[0]);
      assert ea[1..] == EraseForest(as_[1..]) && eb[1..] == EraseForest(bs[1..]);
      SameShapeSameCount(as_[0], bs[0]);
      SameShapeSameCountForest(as_[1..], bs[1..]);
    }
  }

  lemma {:induction false} ShapeAndNamesDetermineTree(a: Element, b: Element)
    decreases a
    requires EraseTree(a) == EraseTree(b) && TreeImageNames(a) == TreeImageNames(b)
    ensures a == b
  {
    assert a.tag == b.tag;
    var k := if a.tag == "image" then 1 else 0;
    assert ForestImageNames(a.children) == TreeImageNames(a)[k..];
    assert ForestImageNames(b.children) == TreeImageNames(b)[k..];
    assert EraseForest(a.children) == EraseForest(b.children);
    ShapeAndNamesDetermineForest(a.children, b.children);
  }

  lemma {:induction false} ShapeAndNamesDetermineForest(as_: seq<Element>, bs: seq<Element>)
    decreases as_
    requires EraseForest(as_) == EraseForest(bs) && ForestImageNames(as_) == ForestImageNames(bs)
    ensures as_ == bs
  {
    if as_ != [] {
      var ea := EraseForest(as_);
      var eb := EraseForest(bs);
      assert ea[0] == EraseTree(as_[0]) && eb[0] == EraseTree(bs[0]);
      assert ea[1..] == EraseForest(as_[1..]) && eb[1..] == EraseForest(bs[1..]);
      SameShapeSameCount(as_[0], bs[0]);
      var na := TreeImageNames(as_[0]);
      var nb := TreeImageNames(bs[0]);
      var all := ForestImageNames(as_);
      assert all == na + ForestImageNames(as_[1..]);
      assert all == nb + ForestImageNames(bs[1..]);
      assert na == all[..|na|] && nb == all[..|nb|];
      assert ForestImageNames(as_[1..]) == all[|na|..] == ForestImageNames(bs[1..]);
      ShapeAndNamesDetermineTree(as_[0], bs[0]);
      ShapeAndNamesDetermineForest(as_[1..], bs[1..]);
      assert as_ == [as_[0]] + as_[1..];
      assert bs == [bs[0]] + bs[1..];
    }
  }

  /** Two documents with the same shape and the same image names are the same document, so the
      shape and names lemmas above describe the update completely. */
  lemma ShapeAndNamesDetermine(a: Element, b: Element)
    requires Shape(a) == Shape(b) && ImageNames(a) == ImageNames(b)
    ensures a == b
  {
    assert EraseForest(a.children) == EraseForest(b.children);
    ShapeAndNamesDetermineForest(a.children, b.children);
  }

  lemma {:induction false} RenameTreeIdempotent(e: Element, camId: nat)
    decreases e
    ensures RenameTree(RenameTree(e, camId), camId) == RenameTree(e, camId)
  {
    RenameForestIdempotent(e.children, camId);
    NewNameIdempotent(camId, e.name);
  }

  lemma {:induction false} RenameForestIdempotent(cs: seq<Element>, camId: nat)
    decreases cs
    ensures RenameForest(RenameForest(cs, camId), camId) == RenameForest(cs, camId)
  {
    if cs != [] {
      var r := RenameForest(cs, camId);
      assert r[0] == RenameTree(cs[0], camId) && r[1..] == RenameForest(cs[1..], camId);
      RenameTreeIdempotent(cs[0], camId);
      RenameForestIdempotent(cs[1..], camId);
    }
  }

  /** Updating an updated document changes nothing. */
  lemma UpdateRootIdempotent(root: Element, camId: nat)
    ensures UpdateRoot(UpdateRoot(root, camId), camId) == UpdateRoot(root, camId)
  {
    RenameForestIdempotent(root.children, camId);
  }

  /** After the update every named image below the root carries this camera's prefix. */
  lemma UpdateRootPrefixesAll(root: Element, camId: nat)
    ensures var ns := ImageNames(UpdateRoot(root, camId));
            forall i :: 0 <= i < |ns| && ns[i].Some? ==> StartsWith(ns[i].value, Prefix(camId))
  {
    UpdateRootNames(root, camId);
  }

  // ---------------------------------------------------------------------------------------------
  // `update_xml_file` on a file system of annotation files

  /** The content of a file `ET.parse` is given: a document, or something it cannot parse. */
  datatype XmlFile = Parsed(root: Element) | Malformed

  type Files = map<string, XmlFile>

  datatype UpdateError = MalformedXml(path: string)

  /** `xml_path.with_suffix(xml_path.suffix + ".bak")`: the path with `.bak` appended. */
  function BackupPath(path: string): (b: string)
    ensures b != path && |b| == |path| + 4 && b[..|path|] == path
  {
    var b := path + ".bak";
    assert b[..|path|] == path;
    b
  }

  /** `update_xml_file(path, cam_id)` with `DRY_RUN == dryRun`. The caller only passes existing
      files. A file that does not parse ends the script. Otherwise, unless it is a dry run, the
      original is moved to the backup path if no backup exists yet, and the updated document is
      written to `path`. */
  function UpdateXmlFile(fs: Files, path: string, camId: nat, dryRun: bool): (r: Result<Files, UpdateError>)
    requires path in fs
    ensures r.Failure? <==> fs[path].Malformed?
    ensures r.Failure? ==> r.error == MalformedXml(path)
    ensures r.Success? && dryRun ==> r.value == fs
    ensures r.Success? && !dryRun ==>
              && r.value.Keys == fs.Keys + {BackupPath(path)}
              && r.value[path] == Parsed(UpdateRoot(fs[path].root, camId))
              && r.value[BackupPath(path)] == (if BackupPath(path) in fs then fs[BackupPath(path)] else fs[path])
              && forall p :: p in fs && p != path && p != BackupPath(path) ==> r.value[p] == fs[p]
  {
    match fs[path]
    case Malformed => Failure(MalformedXml(path))
    case Parsed(root) =>
      if dryRun then Success(fs)
      else
        var updated := Parsed(UpdateRoot(root, camId));
        var backup := BackupPath(path);
        if backup !in fs then Success(fs[backup := fs[path]][path := updated])
        else Success(fs[path := updated])
  }

  /** Running the update a second time changes nothing: the backup keeps the file as it was before
      the first run, and no name gets a second prefix. */
  lemma UpdateXmlFileTwice(fs: Files, path: string, camId: nat, dryRun: bool)
    requires path in fs
    requires UpdateXmlFile(fs, path, camId, dryRun).Success?
    ensures var once := UpdateXmlFile(fs, path, camId, dryRun).value;
            UpdateXmlFile(once, path, camId, dryRun) == Success(once)
  {
    var once := UpdateXmlFile(fs, path, camId, dryRun).value;
    if !dryRun {
      var root := fs[path].root;
      UpdateRootIdempotent(root, camId);
      assert BackupPath(path) in once;
      assert once[path] == Parsed(UpdateRoot(root, camId));
      assert UpdateXmlFile(once, path, camId, dryRun) == Success(once[path := once[path]]);
      assert once[path := once[path]] == once;
    }
  }

  /** `BASE_DIR / f"{anno_base}.xml"`. */
  function XmlPath(stem: string): (p: string)
    ensures |p| >= 4 && p[|p| - 4..] == ".xml"
  {
    BaseDir + "/" + stem + ".xml"
  }

  lemma XmlPathIsNoBackup(stem: string, path: string)
    ensures XmlPath(stem) != BackupPath(path)
  {
    var x := XmlPath(stem);
    var b := BackupPath(path);
    assert x[|x| - 1] == 'l' && b[|b| - 1] == 'k';
  }

  lemma XmlPathInjective(s: string, t: string)
    requires XmlPath(s) == XmlPath(t)
    ensures s == t
  {
    var n := |BaseDir + "/"|;
    assert XmlPath(s) == (BaseDir + "/") + s + ".xml";
    assert XmlPath(t) == (BaseDir + "/") + t + ".xml";
    assert s == XmlPath(s)[n..|XmlPath(s)| - 4];
    assert t == XmlPath(t)[n..|XmlPath(t)| - 4];
  }

  lemma BackupPathInjective(p: string, q: string)
    requires BackupPath(p) == BackupPath(q)
    ensures p == q
  {
  }

  /** Job `stem`'s annotation file exists and `ET.parse` fails on it. */
  predicate Unparsable(fs: Files, stem: string) {
    XmlPath(stem) in fs && fs[XmlPath(stem)].Malformed?
  }

  /** The index of the first job whose annotation file exists and does not parse, or the number of
      jobs when there is none: the jobs before it are the ones the script completes. */
  function FirstUnparsable(fs: Files, jobs: seq<(string, nat)>): (k: nat)
    ensures k <= |jobs|
    ensures forall j :: 0 <= j < k ==> !Unparsable(fs, jobs[j].0)
    ensures k < |jobs| ==> Unparsable(fs, jobs[k].0)
  {
    if jobs == [] then 0
    else if Unparsable(fs, jobs[0].0) then 0
    else 1 + FirstUnparsable(fs, jobs[1..])
  }

  lemma {:induction false} FirstUnparsableSame(fs: Files, gs: Files, jobs: seq<(string, nat)>)
    requires forall j :: 0 <= j < |jobs| ==> (Unparsable(fs, jobs[j].0) <==> Unparsable(gs, jobs[j].0))
    ensures FirstUnparsable(fs, jobs) == FirstUnparsable(gs, jobs)
  {
    if jobs != [] {
      assert forall j :: 1 <= j < |jobs| ==> jobs[j] == jobs[1..][j - 1];
      FirstUnparsableSame(fs, gs, jobs[1..]);
    }
  }

  /** Updating one annotation file neither creates nor repairs an annotation file elsewhere. */
  lemma UpdateKeepsUnparsable(fs: Files, path: string, camId: nat, dryRun: bool, stem: string)
    requires path in fs && UpdateXmlFile(fs, path, camId, dryRun).Success?
    ensures Unparsable(UpdateXmlFile(fs, path, camId, dryRun).value, stem) <==> Unparsable(fs, stem)
  {
    XmlPathIsNoBackup(stem, path);
  }

  /** Where the loop of lines 123-128 stops: the annotation files as they are at that point, and the
      error that stopped it, if any. Files updated before the error stay updated. */
  datatype Progress = Progress(files: Files, error: Option<UpdateError>)

  /** The script's top level (lines 123-128): each listed annotation file that exists is updated in
      turn with its camera ID; missing ones are skipped. The script stops at the first file that does
      not parse, leaving the earlier files rewritten and backed up. */
  function UpdateAnnotations(fs: Files, jobs: seq<(string, nat)>, dryRun: bool): (r: Progress)
    decreases |jobs|
    ensures var k := FirstUnparsable(fs, jobs);
            r.error == if k < |jobs| then Some(MalformedXml(XmlPath(jobs[k].0))) else None
    ensures fs.Keys <= r.files.Keys
    ensures forall p :: p in fs ==> (r.files[p].Malformed? <==> fs[p].Malformed?)
    ensures forall p :: p in r.files && p !in fs ==> r.files[p].Parsed?
    ensures dryRun ==> r.files == fs
  {
    if jobs == [] then Progress(fs, None)
    else
      var path := XmlPath(jobs[0].0);
      assert forall j :: 1 <= j < |jobs| ==> jobs[j] == jobs[1..][j - 1];
      if path !in fs then
        UpdateAnnotations(fs, jobs[1..], dryRun)
      else
        match UpdateXmlFile(fs, path, jobs[0].1, dryRun)
        case Failure(e) => Progress(fs, Some(e))
        case Success(next) =>
          forall j | 1 <= j < |jobs| ensures Unparsable(next, jobs[j].0) <==> Unparsable(fs, jobs[j].0) {
            UpdateKeepsUnparsable(fs, path, jobs[0].1, dryRun, jobs[j].0);
          }
          FirstUnparsableSame(next, fs, jobs[1..]);
          var r := UpdateAnnotations(next, jobs[1..], dryRun);
          assert forall q :: q in next && q !in fs ==> q == BackupPath(path) && next[q] == fs[path];
          r
  }

  /** The paths job `stem` may write: its annotation file and that file's backup. */
  predicate Writes(stem: string, p: string) {
    p == XmlPath(stem) || p == BackupPath(XmlPath(stem))
  }

  /** Only the jobs the script completes write anything: every other file is untouched. */
  lemma {:induction false} UpdateAnnotationsFrame(fs: Files, jobs: seq<(string, nat)>, dryRun: bool)
    decreases |jobs|
    ensures var r := UpdateAnnotations(fs, jobs, dryRun); var k := FirstUnparsable(fs, jobs);
            forall p :: p in fs && (forall j :: 0 <= j < k ==> !Writes(jobs[j].0, p)) ==> r.files[p] == fs[p]
  {
    if jobs != [] {
      var path := XmlPath(jobs[0].0);
      var tail := jobs[1..];
      assert forall j :: 1 <= j < |jobs| ==> jobs[j] == tail[j - 1];
      if path !in fs {
        UpdateAnnotationsFrame(fs, tail, dryRun);
      } else if fs[path].Parsed? {
        var next := UpdateXmlFile(fs, path, jobs[0].1, dryRun).value;
        forall j | 1 <= j < |jobs| ensures Unparsable(next, jobs[j].0) <==> Unparsable(fs, jobs[j].0) {
          UpdateKeepsUnparsable(fs, path, jobs[0].1, dryRun, jobs[j].0);
        }
        FirstUnparsableSame(next, fs, tail);
        var k := FirstUnparsable(fs, jobs);
        var r := UpdateAnnotations(next, tail, dryRun);
        assert k == 1 + FirstUnparsable(next, tail);
        UpdateAnnotationsFrame(next, tail, dryRun);
        forall p | p in fs && (forall j :: 0 <= j < k ==> !Writes(jobs[j].0, p)) ensures r.files[p] == fs[p] {
          assert !Writes(jobs[0].0, p);
          assert forall j :: 0 <= j < k - 1 ==> !Writes(tail[j].0, p);
        }
      }
    }
  }

  /** Every file the script creates is the backup of a completed job's annotation file. */
  lemma {:induction false} UpdateAnnotationsNewFiles(fs: Files, jobs: seq<(string, nat)>, dryRun: bool)
    decreases |jobs|
    ensures var r := UpdateAnnotations(fs, jobs, dryRun); var k := FirstUnparsable(fs, jobs);
            forall p :: p in r.files && p !in fs ==> exists j :: 0 <= j < k && p == BackupPath(XmlPath(jobs[j].0))
  {
    if jobs != [] {
      var path := XmlPath(jobs[0].0);
      var tail := jobs[1..];
      assert forall j :: 1 <= j < |jobs| ==> jobs[j] == tail[j - 1];
      if path !in fs {
        UpdateAnnotationsNewFiles(fs, tail, dryRun);
      } else if fs[path].Parsed? {
        var next := UpdateXmlFile(fs, path, jobs[0].1, dryRun).value;
        forall j | 1 <= j < |jobs| ensures Unparsable(next, jobs[j].0) <==> Unparsable(fs, jobs[j].0) {
          UpdateKeepsUnparsable(fs, path, jobs[0].1, dryRun, jobs[j].0);
        }
        FirstUnparsableSame(next, fs, tail);
        var k := FirstUnparsable(fs, jobs);
        var r := UpdateAnnotations(next, tail, dryRun);
        assert k == 1 + FirstUnparsable(next, tail);
        UpdateAnnotationsNewFiles(next, tail, dryRun);
        forall p | p in r.files && p !in fs ensures exists j :: 0 <= j < k && p == BackupPath(XmlPath(jobs[j].0)) {
          if p in next {
            assert p == BackupPath(XmlPath(jobs[0].0));
          } else {
            var j :| 0 <= j < k - 1 && p == BackupPath(XmlPath(tail[j].0));
            assert p == BackupPath(XmlPath(jobs[j + 1].0));
          }
        }
      }
    }
  }

  /** Distinct jobs name distinct annotation files, as the keys of `anno_to_id` do. */
  predicate DistinctStems(jobs: seq<(string, nat)>) {
    forall i, j :: 0 <= i < j < |jobs| ==> jobs[i].0 != jobs[j].0
  }

  /** What a completed job leaves behind, when no two jobs share a file: its annotation file holds
      the updated document, and its backup holds the file as it was before the script ran, unless a
      backup was there already. */
  predicate JobDone(fs: Files, out: Files, stem: string, camId: nat)
    requires XmlPath(stem) in fs && fs[XmlPath(stem)].Parsed?
  {
    var x := XmlPath(stem);
    && x in out && out[x] == Parsed(UpdateRoot(fs[x].root, camId))
    && BackupPath(x) in out && out[BackupPath(x)] == (if BackupPath(x) in fs then fs[BackupPath(x)] else fs[x])
  }

  /** A job other than the one just run finds its files in `next` as they were in `fs`. */
  lemma JobDoneBefore(fs: Files, first: string, camId: nat, stem: string, id: nat, out: Files)
    requires XmlPath(first) in fs && fs[XmlPath(first)].Parsed? && XmlPath(stem) != XmlPath(first)
    requires XmlPath(stem) in fs && fs[XmlPath(stem)].Parsed?
    requires JobDone(UpdateXmlFile(fs, XmlPath(first), camId, false).value, out, stem, id)
    ensures JobDone(fs, out, stem, id)
  {
    var path := XmlPath(first);
    var x := XmlPath(stem);
    XmlPathIsNoBackup(stem, path);
    XmlPathIsNoBackup(first, x);
    assert BackupPath(x) != BackupPath(path) by {
      if BackupPath(x) == BackupPath(path) { BackupPathInjective(x, path); }
    }
  }

  /** The first job's files are written by no later job, so they keep what the first job wrote. */
  lemma FirstJobDone(fs: Files, jobs: seq<(string, nat)>)
    requires DistinctStems(jobs) && jobs != []
    requires XmlPath(jobs[0].0) in fs && fs[XmlPath(jobs[0].0)].Parsed?
    ensures JobDone(fs, UpdateAnnotations(fs, jobs, false).files, jobs[0].0, jobs[0].1)
  {
    var path := XmlPath(jobs[0].0);
    var tail := jobs[1..];
    var next := UpdateXmlFile(fs, path, jobs[0].1, false).value;
    forall j | 0 <= j < |tail| ensures !Writes(tail[j].0, path) && !Writes(tail[j].0, BackupPath(path)) {
      assert tail[j].0 != jobs[0].0;
      XmlPathIsNoBackup(tail[j].0, path);
      XmlPathIsNoBackup(jobs[0].0, XmlPath(tail[j].0));
      assert XmlPath(tail[j].0) != path by {
        if XmlPath(tail[j].0) == path { XmlPathInjective(tail[j].0, jobs[0].0); }
      }
      assert BackupPath(XmlPath(tail[j].0)) != BackupPath(path) by {
        if BackupPath(XmlPath(tail[j].0)) == BackupPath(path) { BackupPathInjective(XmlPath(tail[j].0), path); }
      }
    }
    UpdateAnnotationsFrame(next, tail, false);
  }

  lemma {:induction false} UpdateAnnotationsContent(fs: Files, jobs: seq<(string, nat)>)
    decreases |jobs|
    requires DistinctStems(jobs)
    ensures var r := UpdateAnnotations(fs, jobs, false); var k := FirstUnparsable(fs, jobs);
            forall j :: 0 <= j < k && XmlPath(jobs[j].0) in fs ==> JobDone(fs, r.files, jobs[j].0, jobs[j].1)
  {
    if jobs != [] {
      var path := XmlPath(jobs[0].0);
      var tail := jobs[1..];
      assert forall j :: 1 <= j < |jobs| ==> jobs[j] == tail[j - 1];
      if path !in fs {
        UpdateAnnotationsContent(fs, tail);
      } else if fs[path].Parsed? {
        var next := UpdateXmlFile(fs, path, jobs[0].1, false).value;
        forall j | 1 <= j < |jobs| ensures Unparsable(next, jobs[j].0) <==> Unparsable(fs, jobs[j].0) {
          UpdateKeepsUnparsable(fs, path, jobs[0].1, false, jobs[j].0);
        }
        FirstUnparsableSame(next, fs, tail);
        var r := UpdateAnnotations(next, tail, false);
        var k := FirstUnparsable(fs, jobs);
        assert k == 1 + FirstUnparsable(next, tail);
        UpdateAnnotationsContent(next, tail);
        FirstJobDone(fs, jobs);
        forall j | 1 <= j < k && XmlPath(jobs[j].0) in fs ensures JobDone(fs, r.files, jobs[j].0, jobs[j].1) {
          assert jobs[j].0 != jobs[0].0;
          assert XmlPath(jobs[j].0) != path by {
            if XmlPath(jobs[j].0) == path { XmlPathInjective(jobs[j].0, jobs[0].0); }
          }
          XmlPathIsNoBackup(jobs[j].0, path);
          assert JobDone(next, r.files, tail[j - 1].0, tail[j - 1].1);
          JobDoneBefore(fs, jobs[0].0, jobs[0].1, jobs[j].0, jobs[j].1, r.files);
        }
      }
    }
  }

  /** `anno_to_id` names three different annotation files. */
  lemma AnnoToIdDistinct()
    ensures DistinctStems(AnnoToId)
  {
    assert |AnnoToId[0].0| == 35 && |AnnoToId[1].0| == 33 && |AnnoToId[2].0| == 34;
  }

  /** The script's own run: every annotation file of `anno_to_id` before the first one that does not
      parse, if it exists, ends up updated with its camera's ID and backed up. */
  lemma ScriptUpdatesAnnotations(fs: Files)
    ensures var r := UpdateAnnotations(fs, AnnoToId, false); var k := FirstUnparsable(fs, AnnoToId);
            forall j :: 0 <= j < k && XmlPath(AnnoToId[j].0) in fs ==> JobDone(fs, r.files, AnnoToId[j].0, AnnoToId[j].1)
  {
    AnnoToIdDistinct();
    UpdateAnnotationsContent(fs, AnnoToId);
  }

  // ---------------------------------------------------------------------------------------------
  // `rename_images` on a directory tree

  /** A directory entry: a regular file (`id` tells files apart), a directory, or anything else. */
  datatype Node = File(id: nat) | Dir(entries: map<string, Node>) | Other

  /** Entry `n` of a folder is renamed (lines 52-73): a regular file, not yet carrying the prefix,
      whose prefixed name is not taken. */
  predicate Moves(entries: map<string, Node>, prefix: string, n: string) {
    n in entries && entries[n].File? && !StartsWith(n, prefix) && prefix + n !in entries
  }

  /** Where entry `n` ends up once the entries in `done` have been visited. */
  function Dest(entries: map<string, Node>, prefix: string, done: set<string>, n: string): string {
    if n in done && Moves(entries, prefix, n) then prefix + n else n
  }

  lemma DestInjective(entries: map<string, Node>, prefix: string, done: set<string>, a: string, b: string)
    requires a in entries && b in entries
    requires Dest(entries, prefix, done, a) == Dest(entries, prefix, done, b)
    ensures a == b
  {
    if a in done && Moves(entries, prefix, a) && b in done && Moves(entries, prefix, b) {
      PrefixStartsConcat(prefix, a);
      PrefixStartsConcat(prefix, b);
    }
  }

  /** The folder after the entries in `done` have been visited: each entry sits at its `Dest`. */
  function Applied(entries: map<string, Node>, prefix: string, done: set<string>): map<string, Node> {
    forall a, b | a in entries && b in entries && Dest(entries, prefix, done, a) == Dest(entries, prefix, done, b)
      ensures a == b
    {
      DestInjective(entries, prefix, done, a, b);
    }
    map n | n in entries :: Dest(entries, prefix, done, n) := entries[n]
  }

  lemma AppliedAt(entries: map<string, Node>, prefix: string, done: set<string>, n: string)
    requires n in entries
    ensures Dest(entries, prefix, done, n) in Applied(entries, prefix, done)
    ensures Applied(entries, prefix, done)[Dest(entries, prefix, done, n)] == entries[n]
  {
    var m := Applied(entries, prefix, done);
    var k := Dest(entries, prefix, done, n);
    assert k in m;
    var a :| a in entries && Dest(entries, prefix, done, a) == k && m[k] == entries[a];
    DestInjective(entries, prefix, done, a, n);
  }

  /** The folder once every entry has been visited: every movable file carries the prefix, nothing
      else moved. */
  function RenamedFolder(entries: map<string, Node>, prefix: string): (r: map<string, Node>)
    ensures forall n :: n in entries ==> Dest(entries, prefix, entries.Keys, n) in r
    ensures forall n :: n in entries ==> r[Dest(entries, prefix, entries.Keys, n)] == entries[n]
    ensures forall m :: m in r ==> exists n :: n in entries && Dest(entries, prefix, entries.Keys, n) == m
  {
    var r := Applied(entries, prefix, entries.Keys);
    forall n | n in entries
      ensures Dest(entries, prefix, entries.Keys, n) in r
      ensures r[Dest(entries, prefix, entries.Keys, n)] == entries[n]
    {
      AppliedAt(entries, prefix, entries.Keys, n);
    }
    r
  }

  lemma RenamedFolderIsApplied(entries: map<string, Node>, prefix: string)
    ensures RenamedFolder(entries, prefix) == Applied(entries, prefix, entries.Keys)
  {
  }

  /** One iteration of the file loop on the folder as it currently is. */
  function Step(cur: map<string, Node>, prefix: string, n: string): map<string, Node> {
    if n in cur && cur[n].File? && !StartsWith(n, prefix) && prefix + n !in cur
    then (cur - {n})[prefix + n := cur[n]]
    else cur
  }

  lemma AppliedNone(entries: map<string, Node>, prefix: string)
    ensures Applied(entries, prefix, {}) == entries
  {
    var a := Applied(entries, prefix, {});
    assert forall n :: Dest(entries, prefix, {}, n) == n;
    forall k | k in a ensures k in entries {
      var m :| m in entries && Dest(entries, prefix, {}, m) == k;
    }
    forall n | n in entries ensures n in a && a[n] == entries[n] {
      AppliedAt(entries, prefix, {}, n);
    }
  }

  /** `Applied` only depends on where the entries go. */
  lemma AppliedSameDest(entries: map<string, Node>, prefix: string, d1: set<string>, d2: set<string>)
    requires forall m :: m in entries ==> Dest(entries, prefix, d1, m) == Dest(entries, prefix, d2, m)
    ensures Applied(entries, prefix, d1) == Applied(entries, prefix, d2)
  {
    var a := Applied(entries, prefix, d1);
    var b := Applied(entries, prefix, d2);
    forall k | k in a ensures k in b && a[k] == b[k] {
      var m :| m in entries && Dest(entries, prefix, d1, m) == k;
      AppliedAt(entries, prefix, d1, m);
      AppliedAt(entries, prefix, d2, m);
    }
    forall k | k in b ensures k in a {
      var m :| m in entries && Dest(entries, prefix, d2, m) == k;
      AppliedAt(entries, prefix, d1, m);
    }
  }

  /** Before it is visited, a movable entry still sits at its own name and its prefixed name is free. */
  lemma MovableUnvisited(entries: map<string, Node>, prefix: string, done: set<string>, n: string)
    requires n !in done && Moves(entries, prefix, n)
    ensures prefix + n !in Applied(entries, prefix, done)
  {
    forall m | m in entries ensures Dest(entries, prefix, done, m) != prefix + n {
      if m in done && Moves(entries, prefix, m) {
        PrefixStartsConcat(prefix, m);
        PrefixStartsConcat(prefix, n);
      }
    }
  }

  lemma StepMovesInto(entries: map<string, Node>, prefix: string, done: set<string>, n: string, m: string)
    requires n !in done && Moves(entries, prefix, n) && m in entries
    ensures var a := Applied(entries, prefix, done);
            var k := Dest(entries, prefix, done + {n}, m);
            n in a && k in (a - {n})[prefix + n := a[n]] && (a - {n})[prefix + n := a[n]][k] == entries[m]
  {
    var a := Applied(entries, prefix, done);
    AppliedAt(entries, prefix, done, n);
    MovableUnvisited(entries, prefix, done, n);
    if m != n {
      AppliedAt(entries, prefix, done, m);
      var k := Dest(entries, prefix, done, m);
      assert k == Dest(entries, prefix, done + {n}, m);
      assert k != n by {
        if k == n { DestInjective(entries, prefix, done, m, n); }
      }
    }
  }

  /** Every name of a folder state comes from some entry. */
  lemma AppliedFrom(entries: map<string, Node>, prefix: string, done: set<string>, k: string)
    requires k in Applied(entries, prefix, done)
    ensures exists m :: m in entries && Dest(entries, prefix, done, m) == k
  {
  }

  lemma StepMovesOnto(entries: map<string, Node>, prefix: string, done: set<string>, n: string, k: string)
    requires n !in done && Moves(entries, prefix, n)
    requires k == prefix + n || (k != n && k in Applied(entries, prefix, done))
    ensures k in Applied(entries, prefix, done + {n})
  {
    if k == prefix + n {
      AppliedAt(entries, prefix, done + {n}, n);
    } else {
      AppliedFrom(entries, prefix, done, k);
      var m :| m in entries && Dest(entries, prefix, done, m) == k;
      assert m != n;
      assert Dest(entries, prefix, done + {n}, m) == k;
      AppliedAt(entries, prefix, done + {n}, m);
    }
  }

  /** Two maps with the same keys and the same value at each key are equal. */
  lemma MapsEqual(s: map<string, Node>, b: map<string, Node>)
    requires forall k :: k in s <==> k in b
    requires forall k :: k in b ==> s[k] == b[k]
    ensures s == b
  {
  }

  lemma StepMovesKeys(entries: map<string, Node>, prefix: string, done: set<string>, n: string)
    requires n !in done && Moves(entries, prefix, n)
    ensures var a := Applied(entries, prefix, done);
            var b := Applied(entries, prefix, done + {n});
            && n in a
            && (forall k :: k in b ==> k in (a - {n})[prefix + n := a[n]] && (a - {n})[prefix + n := a[n]][k] == b[k])
            && (forall k :: k in (a - {n})[prefix + n := a[n]] ==> k in b)
  {
    var a := Applied(entries, prefix, done);
    var b := Applied(entries, prefix, done + {n});
    AppliedAt(entries, prefix, done, n);
    var s := (a - {n})[prefix + n := a[n]];
    forall k | k in b ensures k in s && s[k] == b[k] {
      AppliedFrom(entries, prefix, done + {n}, k);
      var m :| m in entries && Dest(entries, prefix, done + {n}, m) == k;
      AppliedAt(entries, prefix, done + {n}, m);
      StepMovesInto(entries, prefix, done, n, m);
    }
    forall k | k in s ensures k in b {
      StepMovesOnto(entries, prefix, done, n, k);
    }
  }

  lemma StepMoves(entries: map<string, Node>, prefix: string, done: set<string>, n: string)
    requires n !in done && Moves(entries, prefix, n)
    ensures Step(Applied(entries, prefix, done), prefix, n) == Applied(entries, prefix, done + {n})
  {
    var a := Applied(entries, prefix, done);
    AppliedAt(entries, prefix, done, n);
    MovableUnvisited(entries, prefix, done, n);
    assert Step(a, prefix, n) == (a - {n})[prefix + n := a[n]];
    StepMovesKeys(entries, prefix, done, n);
    MapsEqual((a - {n})[prefix + n := a[n]], Applied(entries, prefix, done + {n}));
  }

  lemma StepStays(entries: map<string, Node>, prefix: string, done: set<string>, n: string)
    requires n in entries && n !in done && !Moves(entries, prefix, n)
    ensures Step(Applied(entries, prefix, done), prefix, n) == Applied(entries, prefix, done + {n})
  {
    var a := Applied(entries, prefix, done);
    AppliedSameDest(entries, prefix, done, done + {n});
    AppliedAt(entries, prefix, done, n);
    if entries[n].File? && !StartsWith(n, prefix) {
      assert prefix + n in entries;
      PrefixStartsConcat(prefix, n);
      AppliedAt(entries, prefix, done, prefix + n);
    }
  }

  /** Visiting one more entry of the listing takes the folder from one `Applied` state to the next. */
  lemma StepApplied(entries: map<string, Node>, prefix: string, done: set<string>, n: string)
    requires n in entries && n !in done
    ensures Step(Applied(entries, prefix, done), prefix, n) == Applied(entries, prefix, done + {n})
  {
    if Moves(entries, prefix, n) {
      StepMoves(entries, prefix, done, n);
    } else {
      StepStays(entries, prefix, done, n);
    }
  }

  /** Visiting the `k`-th name of the listing. */
  lemma VisitNext(entries: map<string, Node>, prefix: string, order: seq<string>, k: nat)
    requires Distinct(order) && ToSet(order) == entries.Keys && k < |order|
    ensures Step(Applied(entries, prefix, ToSet(order[..k])), prefix, order[k])
            == Applied(entries, prefix, ToSet(order[..k + 1]))
  {
    DistinctNext(order, k);
    assert order[k] in ToSet(order);
    StepApplied(entries, prefix, ToSet(order[..k]), order[k]);
  }

  /** The file loop of one location folder (lines 51-73) over `order`, the folder's listing taken
      when the loop starts. With `dryRun` nothing is renamed. Whatever the listing order, the result
      is `RenamedFolder`. */
  method RenameFolder(entries: map<string, Node>, prefix: string, order: seq<string>, dryRun: bool)
    returns (r: map<string, Node>)
    requires Distinct(order) && ToSet(order) == entries.Keys
    ensures dryRun ==> r == entries
    ensures !dryRun ==> r == RenamedFolder(entries, prefix)
  {
    r := entries;
    if dryRun {
      return;
    }
    AppliedNone(entries, prefix);
    ToSetEnds(order);
    for k := 0 to |order|
      invariant r == Applied(entries, prefix, ToSet(order[..k]))
    {
      VisitNext(entries, prefix, order, k);
      r := Step(r, prefix, order[k]);
    }
    RenamedFolderIsApplied(entries, prefix);
  }

  /** No file is lost or overwritten: distinct entries end at distinct names, each keeping its node. */
  lemma RenamedFolderKeepsEverything(entries: map<string, Node>, prefix: string, a: string, b: string)
    requires a in entries && b in entries && a != b
    ensures Dest(entries, prefix, entries.Keys, a) != Dest(entries, prefix, entries.Keys, b)
  {
    if Dest(entries, prefix, entries.Keys, a) == Dest(entries, prefix, entries.Keys, b) {
      DestInjective(entries, prefix, entries.Keys, a, b);
    }
  }

  /** After the loop, a regular file without the prefix is there only because its prefixed name is
      taken. */
  lemma RenamedFolderLeftovers(entries: map<string, Node>, prefix: string, m: string)
    requires m in RenamedFolder(entries, prefix)
    requires RenamedFolder(entries, prefix)[m].File? && !StartsWith(m, prefix)
    ensures prefix + m in RenamedFolder(entries, prefix)
  {
    var r := RenamedFolder(entries, prefix);
    var n :| n in entries && Dest(entries, prefix, entries.Keys, n) == m;
    if Moves(entries, prefix, n) {
      PrefixStartsConcat(prefix, n);
    }
    assert n == m && !Moves(entries, prefix, m);
    PrefixStartsConcat(prefix, m);
    assert Dest(entries, prefix, entries.Keys, prefix + m) == prefix + m;
  }

  /** Running the loop on an already processed folder changes nothing. */
  lemma RenamedFolderIdempotent(entries: map<string, Node>, prefix: string)
    ensures RenamedFolder(RenamedFolder(entries, prefix), prefix) == RenamedFolder(entries, prefix)
  {
    var r := RenamedFolder(entries, prefix);
    forall m | m in r ensures !Moves(r, prefix, m) {
      if r[m].File? && !StartsWith(m, prefix) {
        RenamedFolderLeftovers(entries, prefix, m);
      }
    }
    var rr := RenamedFolder(r, prefix);
    forall m | m in r ensures Dest(r, prefix, r.Keys, m) == m {
    }
    forall k | k in rr ensures k in r {
      var m :| m in r && Dest(r, prefix, r.Keys, m) == k;
    }
  }

  /** Lines 38-73 for one borough: each location folder listed in `locToId` has its files renamed
      with that camera's prefix; other entries are left alone. */
  function RenameBorough(entries: map<string, Node>, locToId: map<string, nat>, dryRun: bool): (r: map<string, Node>)
    ensures r.Keys == entries.Keys
    ensures dryRun ==> r == entries
    ensures forall l :: l in entries && !(entries[l].Dir? && l in locToId) ==> r[l] == entries[l]
    ensures forall l :: l in entries && entries[l].Dir? && l in locToId && !dryRun ==>
              r[l] == Dir(RenamedFolder(entries[l].entries, Prefix(locToId[l])))
  {
    map l | l in entries ::
      if entries[l].Dir? && l in locToId && !dryRun
      then Dir(RenamedFolder(entries[l].entries, Prefix(locToId[l])))
      else entries[l]
  }

  datatype RenameError = BaseMissing | BaseNotADirectory

  /** `rename_images()` with `loc_to_id == locToId` and `DRY_RUN == dryRun`, on the tree at `BASE_DIR`
      (`None` when it does not exist). A missing base directory is reported, but the bare `exit`
      does not leave the function, so listing it then fails; listing a base that is not a directory
      fails as well. */
  function RenameImages(base: Option<Node>, locToId: map<string, nat>, dryRun: bool): (r: Result<Node, RenameError>)
    ensures r.Failure? <==> !(base.Some? && base.value.Dir?)
    ensures r.Success? ==> r.value.Dir? && r.value.entries.Keys == base.value.entries.Keys
    ensures r.Success? && dryRun ==> r.value == base.value
    ensures r.Success? ==> forall b :: b in base.value.entries && !base.value.entries[b].Dir? ==>
              r.value.entries[b] == base.value.entries[b]
    ensures r.Success? ==> forall b :: b in base.value.entries && base.value.entries[b].Dir? ==>
              r.value.entries[b] == Dir(RenameBorough(base.value.entries[b].entries, locToId, dryRun))
  {
    match base
    case None => Failure(BaseMissing)
    case Some(File(_)) => Failure(BaseNotADirectory)
    case Some(Other) => Failure(BaseNotADirectory)
    case Some(Dir(entries)) =>
      Success(Dir(map b | b in entries ::
        if entries[b].Dir? then Dir(RenameBorough(entries[b].entries, locToId, dryRun)) else entries[b]))
  }

  /** A movable file of a mapped location folder ends up, unchanged, under its prefixed name. */
  lemma RenameBoroughMoves(entries: map<string, Node>, locToId: map<string, nat>, l: string, n: string)
    requires l in entries && entries[l].Dir? && l in locToId
    requires Moves(entries[l].entries, Prefix(locToId[l]), n)
    ensures var folder := RenameBorough(entries, locToId, false)[l];
            folder.Dir? && Prefix(locToId[l]) + n in folder.entries
            && folder.entries[Prefix(locToId[l]) + n] == entries[l].entries[n]
  {
    var e := entries[l].entries;
    assert Dest(e, Prefix(locToId[l]), e.Keys, n) == Prefix(locToId[l]) + n;
  }

  /** Camera 4616552's prefix, written out, one digit at a time. */
  lemma FordhamPrefix()
    ensures Prefix(4616552) == "4616552__"
  {
    assert Decimal(4) == "4";
    assert Decimal(46) == "46";
    assert Decimal(461) == "461";
    assert Decimal(4616) == "4616";
    assert Decimal(46165) == "46165";
    assert Decimal(461655) == "461655";
    assert Decimal(4616552) == "4616552";
    PrefixIs(4616552);
  }

  /** The script's own table at work: in a borough holding the Fordham Road location folder, each file
      of that folder that can move ends up under camera 4616552's prefix, unchanged. */
  lemma ScriptRenamesFordham(entries: map<string, Node>, n: string)
    requires "fordham_road_hughes_avenue__nysdot-4616552" in entries
    requires entries["fordham_road_hughes_avenue__nysdot-4616552"].Dir?
    requires Moves(entries["fordham_road_hughes_avenue__nysdot-4616552"].entries, "4616552__", n)
    ensures var folder := RenameBorough(entries, LocToId, false)["fordham_road_hughes_avenue__nysdot-4616552"];
            folder.Dir? && "4616552__" + n in folder.entries
            && folder.entries["4616552__" + n] == entries["fordham_road_hughes_avenue__nysdot-4616552"].entries[n]
  {
    assert LocToId["fordham_road_hughes_avenue__nysdot-4616552"] == 4616552;
    FordhamPrefix();
    RenameBoroughMoves(entries, LocToId, "fordham_road_hughes_avenue__nysdot-4616552", n);
  }

  lemma RenameBoroughIdempotent(entries: map<string, Node>, locToId: map<string, nat>, dryRun: bool)
    ensures RenameBorough(RenameBorough(entries, locToId, dryRun), locToId, dryRun)
            == RenameBorough(entries, locToId, dryRun)
  {
    var once := RenameBorough(entries, locToId, dryRun);
    var twice := RenameBorough(once, locToId, dryRun);
    forall l | l in twice ensures twice[l] == once[l] {
      if entries[l].Dir? && l in locToId && !dryRun {
        RenamedFolderIdempotent(entries[l].entries, Prefix(locToId[l]));
      }
    }
    MapsEqual(twice, once);
  }

  /** Running `rename_images` twice has the effect of running it once. */
  lemma RenameImagesIdempotent(base: Option<Node>, locToId: map<string, nat>, dryRun: bool)
    requires RenameImages(base, locToId, dryRun).Success?
    ensures var once := RenameImages(base, locToId, dryRun).value;
            RenameImages(Some(once), locToId, dryRun) == Success(once)
  {
    var entries := base.value.entries;
    var once := RenameImages(base, locToId, dryRun).value.entries;
    var twice := RenameImages(Some(Dir(once)), locToId, dryRun).value.entries;
    forall b | b in twice ensures twice[b] == once[b] {
      if entries[b].Dir? {
        RenameBoroughIdempotent(entries[b].entries, locToId, dryRun);
      }
    }
    MapsEqual(twice, once);
  }

}

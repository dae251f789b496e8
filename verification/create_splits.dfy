/** The train/val/test split generator: merges the `<image>` records of several CVAT annotation
    documents, rejects an empty or duplicate-named collection, shuffles it with a seeded generator,
    sizes the three groups and writes one annotation document and one name list per group. */
module CreateSplits {
  import opened Wrappers
  import opened Seqs
  import opened Text
  import opened StringOrder
  import opened Xml

  // ---------------------------------------------------------------------------------------------
  // Records and the merge of the input documents

  /** One collected `<image>` element together with its `name` attribute. */
  datatype Record = Record(name: string, element: Element)

  function Names(rs: seq<Record>): (r: seq<string>)
    ensures |r| == |rs|
    ensures forall i :: 0 <= i < |rs| ==> r[i] == rs[i].name
  {
    seq(|rs|, i requires 0 <= i < |rs| => rs[i].name)
  }

  function NameSet(rs: seq<Record>): set<string> {
    ToSet(Names(rs))
  }

  /** A record as the loader builds it: an `<image>` element whose `name` is the record's name. */
  predicate WellFormed(r: Record) {
    r.element.tag == "image" && r.element.name == Some(r.name)
  }

  /** Every `<image>` child of the root carries a `name` attribute. */
  predicate ImagesNamed(root: Element) {
    forall i :: 0 <= i < |root.children| && root.children[i].tag == "image" ==> root.children[i].name.Some?
  }

  /** The text of the root's first `<version>` child, if there is one. */
  function VersionText(root: Element): Option<string> {
    match Find(root, "version")
    case None => None
    case Some(v) => v.text
  }

  predicate HasMeta(root: Element) {
    Find(root, "meta").Some?
  }

  /** The root's direct `<image>` children, in document order, as records. */
  function ImageRecords(root: Element): (r: seq<Record>)
    requires ImagesNamed(root)
    ensures |r| == |FindAll(root, "image")|
    ensures forall i :: 0 <= i < |r| ==> r[i].element == FindAll(root, "image")[i] && WellFormed(r[i])
  {
    var images := FindAll(root, "image");
    seq(|images|, i requires 0 <= i < |images| => Record(images[i].name.value, images[i]))
  }

  /** The state of the merge loop: records so far, and the chosen version text and metadata. */
  datatype Merged = Merged(records: seq<Record>, version: Option<string>, meta: Option<Element>)

  /** One iteration of the merge loop. Version and metadata are re-read as long as no metadata has
      been found, so the version text can come from a later file than the first. */
  function MergeFile(acc: Merged, root: Element): Merged
    requires ImagesNamed(root)
  {
    var chosen := if acc.meta.None? then acc.(version := VersionText(root), meta := Find(root, "meta")) else acc;
    chosen.(records := acc.records + ImageRecords(root))
  }

  predicate AllNamed(roots: seq<Element>) {
    forall i :: 0 <= i < |roots| ==> ImagesNamed(roots[i])
  }

  /** The merge loop over the parsed roots, in the order the files are given. */
  function MergeAll(roots: seq<Element>): (m: Merged)
    requires AllNamed(roots)
    ensures forall i :: 0 <= i < |m.records| ==> WellFormed(m.records[i])
    ensures m.meta.Some? ==> m.meta.value.tag == "meta"
  {
    if roots == [] then Merged([], None, None)
    else
      var acc := MergeAll(roots[..|roots| - 1]);
      MergeFile(acc, roots[|roots| - 1])
  }

  /** Reference order of the records: all of the first file's images, then all of the rest. */
  function AllRecords(roots: seq<Element>): seq<Record>
    requires AllNamed(roots)
  {
    if roots == [] then [] else ImageRecords(roots[0]) + AllRecords(roots[1..])
  }

  lemma {:induction false} AllRecordsAppend(roots: seq<Element>, last: Element)
    requires AllNamed(roots) && ImagesNamed(last)
    ensures AllNamed(roots + [last])
    ensures AllRecords(roots + [last]) == AllRecords(roots) + ImageRecords(last)
  {
    var all := roots + [last];
    assert forall i :: 0 <= i < |roots| ==> all[i] == roots[i];
    assert all[|roots|] == last;
    if roots == [] {
      assert all == [last];
      assert AllRecords(all) == ImageRecords(last) + AllRecords([]);
    } else {
      assert all[1..] == roots[1..] + [last];
      AllRecordsAppend(roots[1..], last);
      assert AllRecords(all) == ImageRecords(roots[0]) + AllRecords(all[1..]);
    }
  }

  /** Records are collected file by file in the order given, and within a file in document order. */
  lemma {:induction false} MergeKeepsFileOrder(roots: seq<Element>)
    requires AllNamed(roots)
    ensures MergeAll(roots).records == AllRecords(roots)
  {
    if roots != [] {
      var init := roots[..|roots| - 1];
      MergeKeepsFileOrder(init);
      AllRecordsAppend(init, roots[|roots| - 1]);
      assert init + [roots[|roots| - 1]] == roots;
    }
  }

  /** Index of the first root with a `<meta>` child, or the number of roots when none has one. */
  function FirstWithMeta(roots: seq<Element>): (k: nat)
    ensures k <= |roots|
    ensures forall j :: 0 <= j < k ==> !HasMeta(roots[j])
    ensures k < |roots| ==> HasMeta(roots[k])
  {
    if roots == [] then 0 else if HasMeta(roots[0]) then 0 else 1 + FirstWithMeta(roots[1..])
  }

  /** Which file the version text and metadata come from: the first file with a `<meta>` child
      provides both; when no file has one, the metadata is absent and the version text is the
      last file's. */
  lemma FirstWithMetaIs(roots: seq<Element>, k: nat)
    requires k <= |roots|
    requires forall j :: 0 <= j < k ==> !HasMeta(roots[j])
    requires k < |roots| ==> HasMeta(roots[k])
    ensures FirstWithMeta(roots) == k
  {
  }

  /** How one merge step picks the version text and metadata. */
  lemma MergeFileChoice(acc: Merged, root: Element)
    requires ImagesNamed(root)
    ensures acc.meta.Some? ==> MergeFile(acc, root).version == acc.version && MergeFile(acc, root).meta == acc.meta
    ensures acc.meta.None? ==> MergeFile(acc, root).version == VersionText(root)
                               && MergeFile(acc, root).meta == Find(root, "meta")
  {
  }

  /** Adding a file at the end leaves an earlier first `<meta>` file in place. */
  lemma FirstWithMetaExtend(init: seq<Element>, last: Element)
    ensures var k0 := FirstWithMeta(init);
            FirstWithMeta(init + [last]) == if k0 < |init| then k0 else if HasMeta(last) then |init| else |init| + 1
  {
    var roots := init + [last];
    var k0 := FirstWithMeta(init);
    assert forall j :: 0 <= j < |init| ==> roots[j] == init[j];
    if k0 < |init| {
      FirstWithMetaIs(roots, k0);
    } else if HasMeta(last) {
      FirstWithMetaIs(roots, |init|);
    } else {
      FirstWithMetaIs(roots, |roots|);
    }
  }

  lemma {:induction false} MetadataSource(roots: seq<Element>)
    requires AllNamed(roots)
    ensures FirstWithMeta(roots) < |roots| ==>
              && MergeAll(roots).version == VersionText(roots[FirstWithMeta(roots)])
              && MergeAll(roots).meta == Find(roots[FirstWithMeta(roots)], "meta")
    ensures FirstWithMeta(roots) == |roots| ==>
              && MergeAll(roots).meta == None
              && MergeAll(roots).version == (if roots == [] then None else VersionText(roots[|roots| - 1]))
  {
    if roots != [] {
      var init := roots[..|roots| - 1];
      var last := roots[|roots| - 1];
      assert init + [last] == roots;
      var acc := MergeAll(init);
      assert MergeAll(roots) == MergeFile(acc, last);
      MergeFileChoice(acc, last);
      MetadataSource(init);
      FirstWithMetaExtend(init, last);
      if FirstWithMeta(init) < |init| {
        assert init[FirstWithMeta(init)] == roots[FirstWithMeta(init)];
      }
    }
  }

  // ---------------------------------------------------------------------------------------------
  // Validation

  /** The check `len(names) != len(set(names))`. */
  predicate HasDuplicates(names: seq<string>) {
    |names| != |ToSet(names)|
  }

  function IsDuplicated(names: seq<string>): string -> bool {
    n => multiset(names)[n] > 1
  }

  /** `sorted({n for n in names if names.count(n) > 1})`: every name that occurs more than once,
      each listed once, in ascending order. */
  function Duplicated(names: seq<string>): (all: seq<string>)
    ensures StrictlySorted(all)
    ensures forall x :: x in all <==> x in names && multiset(names)[x] > 1
  {
    var dupes := Filter(IsDuplicated(names), names);
    var all := SortDistinct(dupes);
    forall x | x in all ensures multiset(names)[x] > 1 {
      var j :| 0 <= j < |dupes| && dupes[j] == x;
      assert IsDuplicated(names)(dupes[j]);
    }
    forall x | x in names && multiset(names)[x] > 1 ensures x in all {
      var k :| 0 <= k < |names| && names[k] == x;
      assert IsDuplicated(names)(names[k]);
    }
    all
  }

  /** The first `n` elements of a strictly sorted sequence are sorted and come before every element
      that was cut off. */
  lemma SortedPrefix(all: seq<string>, n: nat)
    requires StrictlySorted(all) && n <= |all|
    ensures StrictlySorted(all[..n])
    ensures forall x :: x in all && x !in all[..n] ==> forall i :: 0 <= i < n ==> Less(all[..n][i], x)
  {
    assert forall k :: 0 <= k < n ==> all[k] == all[..n][k];
    forall x, i | x in all && x !in all[..n] && 0 <= i < n ensures Less(all[..n][i], x) {
      var j :| 0 <= j < |all| && all[j] == x;
    }
  }

  /** The names reported by the duplicate error: `sorted({n for n in names if names.count(n) > 1})[:10]`. */
  function DuplicatePreview(names: seq<string>): (r: seq<string>)
    ensures |r| <= 10 && StrictlySorted(r)
    ensures forall i :: 0 <= i < |r| ==> multiset(names)[r[i]] > 1
    ensures forall x :: x in names && multiset(names)[x] > 1 && x !in r ==>
              |r| == 10 && forall i :: 0 <= i < |r| ==> Less(r[i], x)
  {
    var all := Duplicated(names);
    if |all| <= 10 then all
    else
      SortedPrefix(all, 10);
      all[..10]
  }

  /** The duplicate check fails exactly when some name occurs twice, and then the preview is not
      empty. */
  lemma DuplicateCheck(names: seq<string>)
    ensures HasDuplicates(names) <==> !Distinct(names)
    ensures HasDuplicates(names) <==> DuplicatePreview(names) != []
  {
    ToSetCardinality(names);
    DistinctCounts(names);
    if !Distinct(names) {
      var x :| multiset(names)[x] > 1;
      assert x in names;
      assert x in Duplicated(names);
    }
  }

  // ---------------------------------------------------------------------------------------------
  // Sizing and slicing

  /** The three split ratios given on the command line. */
  datatype Ratios = Ratios(train: real, val: real, test: real)

  /** The check at the top of `main`: the ratios sum to 1 within 1e-6. */
  predicate RatiosSumToOne(r: Ratios) {
    var d := r.train + r.val + r.test - 1.0;
    -0.000001 <= d <= 0.000001
  }

  /** Python's `round`: the nearest integer, ties going to the even neighbour. */
  function RoundHalfEven(x: real): (r: int)
    ensures -0.5 <= r as real - x <= 0.5
    ensures (r as real - x == 0.5 || x - r as real == 0.5) ==> r % 2 == 0
  {
    var f := x.Floor;
    var d := x - f as real;
    if d < 0.5 then f else if d > 0.5 then f + 1 else if f % 2 == 0 then f else f + 1
  }

  lemma RoundWithin(x: real, n: nat)
    requires 0.0 <= x
    ensures 0 <= RoundHalfEven(x)
    ensures x <= n as real ==> RoundHalfEven(x) <= n
  {
  }

  lemma ScaleWithin(t: real, n: nat)
    requires 0.0 <= t
    ensures 0.0 <= t * n as real
    ensures t <= 1.0 ==> t * n as real <= n as real
  {
    var m := n as real;
    assert 0.0 <= t * m;
    if t <= 1.0 {
      assert m - t * m == (1.0 - t) * m;
      assert 0.0 <= (1.0 - t) * m;
    }
  }

  /** Group sizes. */
  datatype Counts = Counts(train: nat, val: nat, test: nat)

  /** Sizing from the two rounded counts: the train count is kept, the validation count is clamped
      so that the two fit, and the test group takes the rest. */
  function SplitCounts(n: nat, roundedTrain: nat, roundedVal: nat): (c: Counts)
    requires roundedTrain <= n
    ensures c.train + c.val + c.test == n
    ensures c.train == roundedTrain
    ensures roundedTrain + roundedVal <= n ==> c.val == roundedVal
    ensures roundedTrain + roundedVal > n ==> c.val == n - roundedTrain && c.test == 0
  {
    var v := if roundedTrain + roundedVal > n then n - roundedTrain else roundedVal;
    Counts(roundedTrain, v, n - roundedTrain - v)
  }

  /** `round(n * t)`: the share `t` of `n` records, to the nearest whole record. */
  function Share(t: real, n: nat): (k: nat)
    requires 0.0 <= t
    ensures -0.5 <= k as real - t * n as real <= 0.5
    ensures (k as real - t * n as real == 0.5 || t * n as real - k as real == 0.5) ==> k % 2 == 0
    ensures t <= 1.0 ==> k <= n
  {
    var x := t * n as real;
    assert 0.0 <= x && (t <= 1.0 ==> x <= n as real) by {
      ScaleWithin(t, n);
    }
    RoundWithin(x, n);
    RoundHalfEven(x)
  }

  /** The sizes for `n` records under the given ratios. */
  function RatioCounts(r: Ratios, n: nat): (c: Counts)
    requires 0.0 <= r.train <= 1.0 && 0.0 <= r.val
    ensures c.train + c.val + c.test == n
    ensures -0.5 <= c.train as real - r.train * n as real <= 0.5
    ensures c.train == Share(r.train, n)
    ensures var v := Share(r.val, n);
            if c.train + v <= n then c.val == v else c.val == n - c.train && c.test == 0
  {
    var train := Share(r.train, n);
    var val := Share(r.val, n);
    var c := SplitCounts(n, train, val);
    assert c.train == train;
    c
  }

  /** The three groups, in the order train, val, test. */
  datatype Groups = Groups(train: seq<Record>, val: seq<Record>, test: seq<Record>)

  /** `records[:n_train]`, `records[n_train:n_train + n_val]`, `records[n_train + n_val:]`. */
  function Slice(s: seq<Record>, c: Counts): (g: Groups)
    requires c.train + c.val + c.test == |s|
    ensures |g.train| == c.train && |g.val| == c.val && |g.test| == c.test
    ensures g.train + g.val + g.test == s
  {
    Groups(s[..c.train], s[c.train..c.train + c.val], s[c.train + c.val..])
  }

  /** The groups' name sets are pairwise disjoint and together are the names of `records`. */
  predicate Partitions(g: Groups, records: seq<Record>) {
    && NameSet(g.train) !! NameSet(g.val)
    && NameSet(g.train) !! NameSet(g.test)
    && NameSet(g.val) !! NameSet(g.test)
    && NameSet(g.train) + NameSet(g.val) + NameSet(g.test) == NameSet(records)
  }

  lemma NameSetConcat(a: seq<Record>, b: seq<Record>)
    ensures NameSet(a + b) == NameSet(a) + NameSet(b)
  {
    assert Names(a + b) == Names(a) + Names(b);
  }

  /** Records taken from two disjoint index ranges of a duplicate-free list have disjoint names. */
  lemma DisjointRanges(s: seq<Record>, lo1: nat, hi1: nat, lo2: nat, hi2: nat)
    requires lo1 <= hi1 <= lo2 <= hi2 <= |s|
    requires Distinct(Names(s))
    ensures NameSet(s[lo1..hi1]) !! NameSet(s[lo2..hi2])
  {
    var a := s[lo1..hi1];
    var b := s[lo2..hi2];
    forall x | x in NameSet(a) ensures x !in NameSet(b) {
      var i :| 0 <= i < |a| && Names(a)[i] == x;
      assert forall j :: 0 <= j < |b| ==> Names(b)[j] != x by {
        forall j | 0 <= j < |b| ensures Names(b)[j] != x {
          assert Names(s)[lo1 + i] == x && Names(b)[j] == Names(s)[lo2 + j];
        }
      }
    }
  }

  /** Slicing a duplicate-free list partitions its names. */
  lemma SlicePartitions(s: seq<Record>, c: Counts)
    requires c.train + c.val + c.test == |s|
    requires Distinct(Names(s))
    ensures Partitions(Slice(s, c), s)
  {
    var g := Slice(s, c);
    var a := c.train;
    var b := c.train + c.val;
    DisjointRanges(s, 0, a, a, b);
    DisjointRanges(s, 0, a, b, |s|);
    DisjointRanges(s, a, b, b, |s|);
    assert g.train == s[0..a] && g.val == s[a..b] && g.test == s[b..|s|];
    NameSetConcat(g.train, g.val);
    NameSetConcat(g.train + g.val, g.test);
  }

  /** A permutation of a duplicate-free list is duplicate-free and has the same names. */
  lemma PermutationKeepsNames(a: seq<Record>, b: seq<Record>)
    requires multiset(a) == multiset(b)
    ensures NameSet(a) == NameSet(b)
    ensures Distinct(Names(a)) ==> Distinct(Names(b))
  {
    assert |a| == |multiset(a)| == |multiset(b)| == |b|;
    forall x | x in NameSet(a) ensures x in NameSet(b) {
      var i :| 0 <= i < |a| && a[i].name == x;
      assert a[i] in multiset(b);
      var j :| 0 <= j < |b| && b[j] == a[i];
      assert Names(b)[j] == x;
    }
    forall x | x in NameSet(b) ensures x in NameSet(a) {
      var i :| 0 <= i < |b| && b[i].name == x;
      assert b[i] in multiset(a);
      var j :| 0 <= j < |a| && a[j] == b[i];
      assert Names(a)[j] == x;
    }
    assert NameSet(a) == NameSet(b);
    assert ToSet(Names(a)) == ToSet(Names(b));
    if Distinct(Names(a)) {
      SameElementsDistinct(Names(a), Names(b));
    }
  }

  // ---------------------------------------------------------------------------------------------
  // Output

  function Elements(rs: seq<Record>): (es: seq<Element>)
    ensures |es| == |rs|
    ensures forall i :: 0 <= i < |rs| ==> es[i] == rs[i].element
  {
    seq(|rs|, i requires 0 <= i < |rs| => rs[i].element)
  }

  /** The `<version>` element written when there is version text. */
  function VersionPart(version: Option<string>): seq<Element> {
    if version.Some? then [Element("version", None, version, [], [])] else []
  }

  /** The copy of the metadata written when there is some. */
  function MetaPart(meta: Option<Element>): seq<Element> {
    if meta.Some? then [meta.value] else []
  }

  /** The document `write_cvat_xml` builds: an `<annotations>` root holding a `<version>` element
      (when there is version text), then the metadata (when there is some), then the records. */
  function CvatDocument(meta: Option<Element>, version: Option<string>, images: seq<Record>): Element {
    Element("annotations", None, None, [], VersionPart(version) + MetaPart(meta) + Elements(images))
  }

  predicate AllWellFormed(images: seq<Record>) {
    forall i :: 0 <= i < |images| ==> WellFormed(images[i])
  }

  lemma ElementsAreImages(images: seq<Record>)
    requires AllWellFormed(images)
    ensures forall i :: 0 <= i < |Elements(images)| ==> Elements(images)[i].tag == "image"
  {
  }

  lemma DocumentVersion(meta: Option<Element>, version: Option<string>, images: seq<Record>)
    requires meta.Some? ==> meta.value.tag == "meta"
    requires AllWellFormed(images)
    ensures VersionText(CvatDocument(meta, version, images)) == version
  {
    var vp, mp, es := VersionPart(version), MetaPart(meta), Elements(images);
    ElementsAreImages(images);
    assert CvatDocument(meta, version, images).children == vp + (mp + es);
    if version.Some? {
      assert vp[0].tag == "version";
      FindInConcatFirst(vp, mp + es, "version");
    } else {
      FindInConcatSkip(mp, es, "version");
      FindInConcatSkip(es, [], "version");
      assert es + [] == es;
      assert vp + (mp + es) == mp + es;
    }
  }

  lemma DocumentMeta(meta: Option<Element>, version: Option<string>, images: seq<Record>)
    requires meta.Some? ==> meta.value.tag == "meta"
    requires AllWellFormed(images)
    ensures Find(CvatDocument(meta, version, images), "meta") == meta
  {
    var vp, mp, es := VersionPart(version), MetaPart(meta), Elements(images);
    ElementsAreImages(images);
    assert CvatDocument(meta, version, images).children == vp + (mp + es);
    FindInConcatSkip(vp, mp + es, "meta");
    if meta.Some? {
      FindInConcatFirst(mp, es, "meta");
    } else {
      FindInConcatSkip(es, [], "meta");
      assert es + [] == es;
      assert mp + es == es;
    }
  }

  lemma DocumentFindAll(meta: Option<Element>, version: Option<string>, images: seq<Record>)
    requires meta.Some? ==> meta.value.tag == "meta"
    requires AllWellFormed(images)
    ensures FindAll(CvatDocument(meta, version, images), "image") == Elements(images)
  {
    var vp, mp, es := VersionPart(version), MetaPart(meta), Elements(images);
    ElementsAreImages(images);
    FilterConcat(TagIs("image"), vp + mp, es);
    FilterConcat(TagIs("image"), vp, mp);
    FilterDropsAll(TagIs("image"), vp);
    FilterDropsAll(TagIs("image"), mp);
    FilterKeepsAll(TagIs("image"), es);
  }

  lemma DocumentImages(meta: Option<Element>, version: Option<string>, images: seq<Record>)
    requires meta.Some? ==> meta.value.tag == "meta"
    requires AllWellFormed(images)
    ensures ImagesNamed(CvatDocument(meta, version, images))
    ensures ImageRecords(CvatDocument(meta, version, images)) == images
  {
    var doc := CvatDocument(meta, version, images);
    assert ImagesNamed(doc) by {
      forall e | e in doc.children && e.tag == "image" ensures e.name.Some? {
        assert e !in VersionPart(version) && e !in MetaPart(meta);
      }
    }
    DocumentFindAll(meta, version, images);
  }

  /** Loading a written document back with the same loader returns exactly the group's records, the
      version text and the metadata that were written. */
  lemma CvatDocumentRoundTrip(meta: Option<Element>, version: Option<string>, images: seq<Record>)
    requires meta.Some? ==> meta.value.tag == "meta"
    requires AllWellFormed(images)
    ensures AllNamed([CvatDocument(meta, version, images)])
    ensures MergeAll([CvatDocument(meta, version, images)]) == Merged(images, version, meta)
  {
    var doc := CvatDocument(meta, version, images);
    DocumentVersion(meta, version, images);
    DocumentMeta(meta, version, images);
    DocumentImages(meta, version, images);
    assert [doc][..0] == [];
    assert MergeAll([doc]) == MergeFile(Merged([], None, None), doc);
  }

  /** What ends up on disk. */
  datatype FileContent = XmlDocument(root: Element) | PlainText(body: string)

  /** The observable steps of a run, in order. */
  datatype Effect = CreateOutputDir | ReadInput(index: nat) | WriteFile(fileName: string, content: FileContent)

  /** The two files written for one group. */
  function GroupFiles(stem: string, meta: Option<Element>, version: Option<string>, group: seq<Record>): seq<Effect> {
    [ WriteFile(stem + "_annotations.xml", XmlDocument(CvatDocument(meta, version, group))),
      WriteFile(stem + "_images.txt", PlainText(JoinLines(Names(group)))) ]
  }

  /** The six files, in the order the `splits` dictionary is iterated. */
  function Outputs(g: Groups, meta: Option<Element>, version: Option<string>): seq<Effect> {
    GroupFiles("train", meta, version, g.train)
      + GroupFiles("val", meta, version, g.val)
      + GroupFiles("test", meta, version, g.test)
  }

  /** The two files of a group describe the same records in the same order: the name list reads
      back as the group's names, and the annotation document loads back as the group's records
      with the version text and metadata. */
  predicate GroupWritten(files: seq<Effect>, stem: string, meta: Option<Element>, version: Option<string>,
                         group: seq<Record>)
  {
    && |files| == 2
    && files[0].WriteFile? && files[0].fileName == stem + "_annotations.xml"
    && files[0].content.XmlDocument?
    && AllNamed([files[0].content.root])
    && MergeAll([files[0].content.root]) == Merged(group, version, meta)
    && files[1].WriteFile? && files[1].fileName == stem + "_images.txt"
    && files[1].content.PlainText?
    && ((forall i :: 0 <= i < |group| ==> NoNewline(group[i].name)) ==> Lines(files[1].content.body) == Names(group))
  }

  lemma GroupFilesWritten(stem: string, meta: Option<Element>, version: Option<string>, group: seq<Record>)
    requires meta.Some? ==> meta.value.tag == "meta"
    requires forall i :: 0 <= i < |group| ==> WellFormed(group[i])
    ensures GroupWritten(GroupFiles(stem, meta, version, group), stem, meta, version, group)
  {
    CvatDocumentRoundTrip(meta, version, group);
    if forall i :: 0 <= i < |group| ==> NoNewline(group[i].name) {
      LinesOfJoinLines(Names(group));
    }
  }

  // ---------------------------------------------------------------------------------------------
  // The whole run

  datatype SplitError =
    | RatioSumError
    | ParseError(index: nat)
    | NoImages
    | DuplicateNames(preview: seq<string>)

  /** Everything a run does, and how it ends. */
  datatype Run = Run(effects: seq<Effect>, outcome: Result<Groups, SplitError>)

  /** The seeded shuffle `random.Random(seed).shuffle`: for every seed, a permutation. */
  ghost predicate IsShuffle(shuffle: (int, seq<Record>) -> seq<Record>) {
    forall seed, s :: multiset(shuffle(seed, s)) == multiset(s)
  }

  /** Index of the first input from `from` on that does not parse, or the number of inputs when
      all of them parse. */
  function FirstUnparsableFrom(inputs: seq<Option<Element>>, from: nat): (k: nat)
    requires from <= |inputs|
    ensures from <= k <= |inputs|
    ensures forall j :: from <= j < k ==> inputs[j].Some?
    ensures k < |inputs| ==> inputs[k].None?
    decreases |inputs| - from
  {
    if from == |inputs| then from
    else if inputs[from].None? then from
    else FirstUnparsableFrom(inputs, from + 1)
  }

  /** Index of the first input that does not parse, or the number of inputs when all parse. */
  function FirstUnparsable(inputs: seq<Option<Element>>): (k: nat)
    ensures k <= |inputs|
    ensures forall j :: 0 <= j < k ==> inputs[j].Some?
    ensures k < |inputs| ==> inputs[k].None?
  {
    FirstUnparsableFrom(inputs, 0)
  }

  function Parsed(inputs: seq<Option<Element>>): (roots: seq<Element>)
    requires forall j :: 0 <= j < |inputs| ==> inputs[j].Some?
    ensures |roots| == |inputs|
    ensures forall j :: 0 <= j < |inputs| ==> inputs[j] == Some(roots[j])
  {
    seq(|inputs|, j requires 0 <= j < |inputs| => inputs[j].value)
  }

  function Reads(k: nat): (r: seq<Effect>)
    ensures |r| == k
    ensures forall i :: 0 <= i < k ==> r[i] == ReadInput(i)
  {
    seq(k, i requires 0 <= i < k => ReadInput(i))
  }

  predicate InputsNamed(inputs: seq<Option<Element>>) {
    forall j :: 0 <= j < |inputs| && inputs[j].Some? ==> ImagesNamed(inputs[j].value)
  }

  /** All records of a fully parsed input list. */
  function InputRecords(inputs: seq<Option<Element>>): seq<Record>
    requires InputsNamed(inputs)
    requires FirstUnparsable(inputs) == |inputs|
  {
    MergeAll(Parsed(inputs)).records
  }

  /** Shuffling with the seeded generator, then cutting the shuffled list into the three groups. */
  function ShuffleAndSlice(ratios: Ratios, records: seq<Record>, seed: int,
                           shuffle: (int, seq<Record>) -> seq<Record>): (g: Groups)
    requires 0.0 <= ratios.train <= 1.0 && 0.0 <= ratios.val
    requires IsShuffle(shuffle)
    ensures multiset(g.train + g.val + g.test) == multiset(records)
  {
    var shuffled := shuffle(seed, records);
    assert |shuffled| == |records| by {
      assert |multiset(shuffled)| == |multiset(records)|;
    }
    Slice(shuffled, RatioCounts(ratios, |shuffled|))
  }

  /** `main` of the split generator. `inputs[i]` is the parsed root of the i-th file, or `None`
      when that file does not parse. */
  function RunSplit(ratios: Ratios, inputs: seq<Option<Element>>, seed: int,
                    shuffle: (int, seq<Record>) -> seq<Record>): (run: Run)
    requires RatiosSumToOne(ratios) ==> 0.0 <= ratios.train <= 1.0 && 0.0 <= ratios.val
    requires IsShuffle(shuffle)
    requires InputsNamed(inputs)
    ensures run.outcome == Failure(RatioSumError) <==> !RatiosSumToOne(ratios)
    ensures !RatiosSumToOne(ratios) ==> run.effects == []
    ensures RatiosSumToOne(ratios) ==> |run.effects| > 0 && run.effects[0] == CreateOutputDir
    ensures run.outcome.Failure? ==> forall i :: 0 <= i < |run.effects| ==> !run.effects[i].WriteFile?
    ensures run.outcome.Success? ==>
              && FirstUnparsable(inputs) == |inputs|
              && InputRecords(inputs) != []
              && !HasDuplicates(Names(InputRecords(inputs)))
              && var g := run.outcome.value;
                 multiset(g.train + g.val + g.test) == multiset(InputRecords(inputs))
  {
    if !RatiosSumToOne(ratios) then Run([], Failure(RatioSumError))
    else
      var k := FirstUnparsable(inputs);
      if k < |inputs| then Run([CreateOutputDir] + Reads(k + 1), Failure(ParseError(k)))
      else
        var merged := MergeAll(Parsed(inputs));
        var before := [CreateOutputDir] + Reads(|inputs|);
        if merged.records == [] then Run(before, Failure(NoImages))
        else
          var names := Names(merged.records);
          if HasDuplicates(names) then Run(before, Failure(DuplicateNames(DuplicatePreview(names))))
          else
            var g := ShuffleAndSlice(ratios, merged.records, seed, shuffle);
            Run(before + Outputs(g, merged.meta, merged.version), Success(g))
  }

  /** The conditions under which a run succeeds: the ratio check passes, every file parses, and the
      records are non-empty and duplicate-free. */
  predicate Succeeds(ratios: Ratios, inputs: seq<Option<Element>>) {
    && 0.0 <= ratios.train <= 1.0 && 0.0 <= ratios.val && RatiosSumToOne(ratios)
    && InputsNamed(inputs)
    && FirstUnparsable(inputs) == |inputs|
    && InputRecords(inputs) != []
    && Distinct(Names(InputRecords(inputs)))
  }

  /** A file that fails to parse ends the run at that file: the output directory exists and the
      files up to and including it were read, but nothing is written. */
  lemma RunStopsAtParseError(ratios: Ratios, inputs: seq<Option<Element>>, seed: int,
                             shuffle: (int, seq<Record>) -> seq<Record>, k: nat)
    requires 0.0 <= ratios.train <= 1.0 && 0.0 <= ratios.val && RatiosSumToOne(ratios)
    requires IsShuffle(shuffle) && InputsNamed(inputs)
    requires k < |inputs| && inputs[k].None?
    requires forall j :: 0 <= j < k ==> inputs[j].Some?
    ensures RunSplit(ratios, inputs, seed, shuffle).outcome == Failure(ParseError(k))
    ensures RunSplit(ratios, inputs, seed, shuffle).effects == [CreateOutputDir] + Reads(k + 1)
  {
    assert FirstUnparsable(inputs) == k;
  }

  /** No `<image>` in any input: the run fails without writing anything. */
  lemma RunRejectsEmpty(ratios: Ratios, inputs: seq<Option<Element>>, seed: int,
                        shuffle: (int, seq<Record>) -> seq<Record>)
    requires 0.0 <= ratios.train <= 1.0 && 0.0 <= ratios.val && RatiosSumToOne(ratios)
    requires IsShuffle(shuffle) && InputsNamed(inputs)
    requires FirstUnparsable(inputs) == |inputs| && InputRecords(inputs) == []
    ensures RunSplit(ratios, inputs, seed, shuffle).outcome == Failure(NoImages)
    ensures RunSplit(ratios, inputs, seed, shuffle).effects == [CreateOutputDir] + Reads(|inputs|)
  {
  }

  /** A name occurring twice among the inputs' records (in one file or across files) fails the run
      without writing anything, reporting the sorted preview of the duplicated names. */
  lemma RunRejectsDuplicates(ratios: Ratios, inputs: seq<Option<Element>>, seed: int,
                             shuffle: (int, seq<Record>) -> seq<Record>)
    requires 0.0 <= ratios.train <= 1.0 && 0.0 <= ratios.val && RatiosSumToOne(ratios)
    requires IsShuffle(shuffle) && InputsNamed(inputs)
    requires FirstUnparsable(inputs) == |inputs| && InputRecords(inputs) != []
    requires !Distinct(Names(InputRecords(inputs)))
    ensures RunSplit(ratios, inputs, seed, shuffle).outcome
            == Failure(DuplicateNames(DuplicatePreview(Names(InputRecords(inputs)))))
    ensures RunSplit(ratios, inputs, seed, shuffle).effects == [CreateOutputDir] + Reads(|inputs|)
  {
    DuplicateCheck(Names(InputRecords(inputs)));
  }

  /** A run succeeds exactly under `Succeeds`. */
  lemma RunSucceedsIff(ratios: Ratios, inputs: seq<Option<Element>>, seed: int,
                       shuffle: (int, seq<Record>) -> seq<Record>)
    requires RatiosSumToOne(ratios) ==> 0.0 <= ratios.train <= 1.0 && 0.0 <= ratios.val
    requires IsShuffle(shuffle) && InputsNamed(inputs)
    ensures RunSplit(ratios, inputs, seed, shuffle).outcome.Success? <==> Succeeds(ratios, inputs)
  {
    if FirstUnparsable(inputs) == |inputs| {
      DuplicateCheck(Names(InputRecords(inputs)));
    }
  }

  /** The groups of a successful run have the sizes the ratios give, are the shuffled records cut in
      three, and partition the input names. */
  lemma RunPartitions(ratios: Ratios, inputs: seq<Option<Element>>, seed: int,
                      shuffle: (int, seq<Record>) -> seq<Record>)
    requires IsShuffle(shuffle) && Succeeds(ratios, inputs)
    ensures RunSplit(ratios, inputs, seed, shuffle).outcome.Success?
    ensures var records := InputRecords(inputs);
            var g := RunSplit(ratios, inputs, seed, shuffle).outcome.value;
            var c := RatioCounts(ratios, |records|);
            && g.train + g.val + g.test == shuffle(seed, records)
            && |g.train| == c.train && |g.val| == c.val && |g.test| == c.test
            && Partitions(g, records)
  {
    var records := InputRecords(inputs);
    DuplicateCheck(Names(records));
    var shuffled := shuffle(seed, records);
    assert multiset(shuffled) == multiset(records);
    assert |shuffled| == |records| by {
      assert |multiset(shuffled)| == |multiset(records)|;
    }
    PermutationKeepsNames(records, shuffled);
    SlicePartitions(shuffled, RatioCounts(ratios, |shuffled|));
  }

  /** Groups cut from well-formed records are well-formed. */
  lemma GroupsWellFormed(g: Groups, records: seq<Record>)
    requires AllWellFormed(records)
    requires multiset(g.train + g.val + g.test) == multiset(records)
    ensures AllWellFormed(g.train) && AllWellFormed(g.val) && AllWellFormed(g.test)
  {
    var all := g.train + g.val + g.test;
    assert forall i :: 0 <= i < |all| ==> WellFormed(all[i]) by {
      forall i | 0 <= i < |all| ensures WellFormed(all[i]) {
        assert all[i] in multiset(records);
      }
    }
    forall i | 0 <= i < |g.train| ensures WellFormed(g.train[i]) {
      assert g.train[i] == all[i];
    }
    forall i | 0 <= i < |g.val| ensures WellFormed(g.val[i]) {
      assert g.val[i] == all[|g.train| + i];
    }
    forall i | 0 <= i < |g.test| ensures WellFormed(g.test[i]) {
      assert g.test[i] == all[|g.train| + |g.val| + i];
    }
  }

  /** The six output files, group by group. */
  lemma OutputsLayout(g: Groups, meta: Option<Element>, version: Option<string>)
    ensures var out := Outputs(g, meta, version);
            && |out| == 6
            && out[..2] == GroupFiles("train", meta, version, g.train)
            && out[2..4] == GroupFiles("val", meta, version, g.val)
            && out[4..] == GroupFiles("test", meta, version, g.test)
  {
  }

  /** Each group's two files are written consistently with the group. */
  lemma OutputsWritten(g: Groups, meta: Option<Element>, version: Option<string>)
    requires meta.Some? ==> meta.value.tag == "meta"
    requires AllWellFormed(g.train) && AllWellFormed(g.val) && AllWellFormed(g.test)
    ensures var out := Outputs(g, meta, version);
            && |out| == 6
            && GroupWritten(out[..2], "train", meta, version, g.train)
            && GroupWritten(out[2..4], "val", meta, version, g.val)
            && GroupWritten(out[4..], "test", meta, version, g.test)
  {
    OutputsLayout(g, meta, version);
    GroupFilesWritten("train", meta, version, g.train);
    GroupFilesWritten("val", meta, version, g.val);
    GroupFilesWritten("test", meta, version, g.test);
  }

  /** Cutting the six outputs back out of the effect list that follows the reads. */
  lemma OutputsAfter(before: seq<Effect>, out: seq<Effect>)
    requires |out| == 6
    ensures var e := before + out;
            var n := |before|;
            && e[..n] == before
            && e[n..n + 2] == out[..2] && e[n + 2..n + 4] == out[2..4] && e[n + 4..] == out[4..]
  {
  }

  /** What a successful run consists of: the directory, the reads, then the six outputs of the
      shuffled and sliced records. */
  lemma RunSuccessShape(ratios: Ratios, inputs: seq<Option<Element>>, seed: int,
                        shuffle: (int, seq<Record>) -> seq<Record>)
    requires IsShuffle(shuffle) && Succeeds(ratios, inputs)
    ensures var m := MergeAll(Parsed(inputs));
            var g := ShuffleAndSlice(ratios, m.records, seed, shuffle);
            RunSplit(ratios, inputs, seed, shuffle)
              == Run([CreateOutputDir] + Reads(|inputs|) + Outputs(g, m.meta, m.version), Success(g))
  {
    DuplicateCheck(Names(InputRecords(inputs)));
  }

  /** A successful run creates the directory, reads every input, then writes the train, val and test
      files in that order, each annotation document before its name list. */
  lemma RunOutputs(ratios: Ratios, inputs: seq<Option<Element>>, seed: int,
                   shuffle: (int, seq<Record>) -> seq<Record>)
    requires IsShuffle(shuffle) && Succeeds(ratios, inputs)
    ensures var run := RunSplit(ratios, inputs, seed, shuffle);
            var m := MergeAll(Parsed(inputs));
            && run.outcome.Success?
            && var g := run.outcome.value;
               var n := |inputs| + 1;
               && |run.effects| == n + 6
               && run.effects[..n] == [CreateOutputDir] + Reads(|inputs|)
               && GroupWritten(run.effects[n..n + 2], "train", m.meta, m.version, g.train)
               && GroupWritten(run.effects[n + 2..n + 4], "val", m.meta, m.version, g.val)
               && GroupWritten(run.effects[n + 4..], "test", m.meta, m.version, g.test)
  {
    var m := MergeAll(Parsed(inputs));
    var g := ShuffleAndSlice(ratios, m.records, seed, shuffle);
    var before := [CreateOutputDir] + Reads(|inputs|);
    var out := Outputs(g, m.meta, m.version);
    RunSuccessShape(ratios, inputs, seed, shuffle);
    GroupsWellFormed(g, m.records);
    OutputsWritten(g, m.meta, m.version);
    OutputsAfter(before, out);
  }

  /** The documented small cases: ten records at 0.8/0.1/0.1 give 8/1/1; three records give 2/0/1;
      five records at 0.7/0.3/0.0 round to 4 and 2, so validation is clamped to 1 and test is empty. */
  lemma SizingExamples()
    ensures RatioCounts(Ratios(0.8, 0.1, 0.1), 10) == Counts(8, 1, 1)
    ensures RatioCounts(Ratios(0.8, 0.1, 0.1), 3) == Counts(2, 0, 1)
    ensures RatioCounts(Ratios(0.7, 0.3, 0.0), 5) == Counts(4, 1, 0)
  {
    assert RoundHalfEven(8.0) == 8 && RoundHalfEven(1.0) == 1;
    assert RoundHalfEven(2.4) == 2 && RoundHalfEven(0.3) == 0;
    assert RoundHalfEven(3.5) == 4 && RoundHalfEven(1.5) == 2;
  }
}

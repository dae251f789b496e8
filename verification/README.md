# Traffic-camera dataset scripts, modelled in Dafny

This project models the pure logic inside three scripts of a small traffic-camera labelling
repository and proves properties of it.

- **The split generator** (`scripts/create_splits.py`) reads several CVAT annotation
  documents. It merges their `<image>` records, taking the version text and metadata from the
  first document that has a `<meta>` element. It rejects an empty or duplicate-named
  collection, then shuffles with a seeded generator. It sizes train/val/test with Python's
  `round` and clamps the validation count. It cuts the shuffled list into three contiguous
  groups and writes, per group, an annotation document and a name list (`CreateSplits`).
- **The camera-ID prefixer** (`scripts/map_image_to_cam.py`) puts `"<camera id>__"` in
  front of:
  - every `name` attribute of an `<image>` element at any depth of an annotation file. It
    keeps a one-time `.bak` backup of the original file.
  - every regular file, whatever its extension, in a mapped location folder. A file is
    skipped when it already carries the prefix or when its prefixed name is taken.
  
  It has a dry-run mode (`MapImageToCam`).
- **The snapshot script** (`scripts/api_save.py`) has three pieces of logic:
  - `sanitize_filename`, the regex normaliser (substitute, strip, lower);
  - `name_matches`, case-insensitive substring matching;
  - the camera filter and the per-camera directory name `sanitize(Name) + "__" + sanitize(ID)`
    (`ApiSave`).

Shared modules:

| module | holds |
|---|---|
| `Wrappers` | `Option` and `Result` |
| `Seqs` | filtering, subsequences, distinctness |
| `Text` | ASCII lowercasing, substrings, decimal numerals, newline-joined lists |
| `StringOrder` | Python's string order and sorted distinct lists |
| `Xml` | the part of an ElementTree element the scripts read: tag, `name`, text, children, and `find`/`findall` |

How the foreign pieces are handled:

- **XML parsing.** An input document is its parsed root, or `None` when it does not parse.
- **The shuffle.** It is a parameter constrained to return a permutation for every seed.
- **The file system.** It is a map from path to content for the annotation files, and a
  tree of `Node`s for the image folders.
- **`DRY_RUN`.** It is a parameter.

### Behaviour worth knowing

- **Metadata source.** The comment at `scripts/create_splits.py:49` says the first file's meta
  and version are used. The loop at `scripts/create_splits.py:49-54` re-reads both as long as
  no `<meta>` element has been found. So they come from the first file that has `<meta>`.
  When no file has one, the metadata is absent and the version text is the last file's
  (`CreateSplits.MetadataSource`).
- **Output directory on failure.** The output directory is created at
  `scripts/create_splits.py:38-39`, before any input is parsed. So a parse, empty-input or
  duplicate failure leaves the (possibly new) directory behind, though never an output
  file. `CreateSplits.RunSplit` records the directory creation as the first effect of every
  run that passes the ratio check.

## Model

| member | source | states |
|---|---|---|
| CreateSplits.ImageRecords | scripts/create_splits.py:56-58 | one record per direct `<image>` child of the root, in document order; each record holds its element and is named by the element's `name` attribute |
| CreateSplits.MergeAll | scripts/create_splits.py:41-58 | every merged record is an `<image>` element named by its record name, and the chosen metadata, when present, is a `<meta>` element |
| CreateSplits.MergeKeepsFileOrder | scripts/create_splits.py:45-58 | the merged records are all of the first file's images, then all of the next file's, and so on, each file in document order |
| CreateSplits.MetadataSource | scripts/create_splits.py:49-54 | version text and metadata both come from the first file with a `<meta>` child; if none has one, the metadata is absent and the version text is the last file's (none for no files) |
| CreateSplits.FirstWithMeta | scripts/create_splits.py:50-54 | the index of the first file with `<meta>`: no earlier file has one, and it has one unless it is past the end |
| CreateSplits.Duplicated | scripts/create_splits.py:66 | strictly ascending, and contains exactly the names occurring more than once |
| CreateSplits.DuplicatePreview | scripts/create_splits.py:66-67 | at most 10 names, strictly ascending, all duplicated; a duplicated name is left out only when the preview is full and every listed name sorts before it |
| CreateSplits.DuplicateCheck | scripts/create_splits.py:64-67 | `len(names) != len(set(names))` holds exactly when some name occurs twice, and exactly when the preview is non-empty |
| CreateSplits.RoundHalfEven | scripts/create_splits.py:73-74 | Python's `round`: within 0.5 of its argument, and even on a tie |
| CreateSplits.Share | scripts/create_splits.py:73-74 | `round(t * n)` is within 0.5 of `t * n`, even when `t * n` lies halfway between two integers, and at most `n` when `t <= 1` |
| CreateSplits.SplitCounts | scripts/create_splits.py:75-77 | the sizes add up to `n`; the train count is never changed; validation is kept when train + val fits in `n`, otherwise it becomes `n - train` and test is 0 |
| CreateSplits.RatioCounts | scripts/create_splits.py:72-77 | the three sizes add up to `n`; the train size is `round(train * n)`, within half a record of `train * n`; the validation size is `round(val * n)` when the two fit, otherwise it becomes `n - train` and the test size 0 |
| CreateSplits.SizingExamples | scripts/create_splits.py:72-77 | 10 records at 0.8/0.1/0.1 give 8/1/1; 3 give 2/0/1; 5 at 0.7/0.3/0 give 4/1/0 (validation clamped) |
| CreateSplits.Slice | scripts/create_splits.py:79-83 | the groups have the requested lengths and, concatenated, are the shuffled list itself |
| CreateSplits.SlicePartitions | scripts/create_splits.py:79-83 | slicing a duplicate-free list gives groups whose name sets are pairwise disjoint and together are the list's names |
| CreateSplits.PermutationKeepsNames | scripts/create_splits.py:69-70 | a permutation has the same name set and stays duplicate-free |
| CreateSplits.CvatDocumentRoundTrip | scripts/create_splits.py:17-26 | `CvatDocument`, the tree `write_cvat_xml` builds, is read back by the merge loop as exactly the group's records, the version text and the metadata |
| CreateSplits.GroupFilesWritten | scripts/create_splits.py:85-89 | `<stem>_annotations.xml` holds the group's document and, when no name contains a newline, `<stem>_images.txt` reads back, line by line, as the group's names in the same order |
| CreateSplits.OutputsWritten | scripts/create_splits.py:79-89 | six files, train then val then test, each group's two files consistent with that group |
| CreateSplits.ShuffleAndSlice | scripts/create_splits.py:69-83 | the three groups together are a permutation of the merged records |
| CreateSplits.RunSplit | scripts/create_splits.py:32-89 | fails with the ratio error exactly when the sum is off by more than 1e-6 (`RatiosSumToOne` fails), and then does nothing; otherwise the directory is created first; no failure writes a file; a success implies all files parsed, records non-empty and duplicate-free, and groups that permute them |
| CreateSplits.RunStopsAtParseError | scripts/create_splits.py:38-47 | the first unparsable file ends the run after the directory and the reads up to and including that file |
| CreateSplits.RunRejectsEmpty | scripts/create_splits.py:60-61 | no `<image>` in any file: the run fails after reading every file, writing nothing |
| CreateSplits.RunRejectsDuplicates | scripts/create_splits.py:63-67 | a name occurring twice anywhere fails the run with the sorted preview of duplicated names, writing nothing |
| CreateSplits.RunSucceedsIff | scripts/create_splits.py:34-67 | a run succeeds exactly when the ratio check passes, every file parses, and the records are non-empty and duplicate-free |
| CreateSplits.RunPartitions | scripts/create_splits.py:69-83 | on success the groups concatenate to the shuffled records, have the sizes `RatioCounts` gives, and partition the input names |
| CreateSplits.RunOutputs | scripts/create_splits.py:38-89 | a success is: directory, one read per file, then the train, val and test files, each annotation document before its name list and both consistent with the group |
| MapImageToCam.Prefix | scripts/map_image_to_cam.py:99 | the prefix ends in `__` and what precedes it is a decimal numeral whose value is the camera ID, with no leading zero |
| MapImageToCam.NewName | scripts/map_image_to_cam.py:84-99 | an absent name stays absent; a name with the prefix is kept; any other name becomes the prefix followed by the old name; every present result carries the prefix |
| MapImageToCam.NewNameIdempotent | scripts/map_image_to_cam.py:88-92 | renaming a renamed name changes nothing (no double prefix) |
| MapImageToCam.UpdateRoot | scripts/map_image_to_cam.py:83-103 | the root element itself is not changed, and it keeps the number of children |
| MapImageToCam.UpdateRootNames | scripts/map_image_to_cam.py:83-103 | the `.//image` names of the result are the old names, each passed through `NewName`, in document order and the same number |
| MapImageToCam.UpdateRootShape | scripts/map_image_to_cam.py:83-103 | apart from image names the document is unchanged: tags, text, other attributes, nesting and order |
| MapImageToCam.ShapeAndNamesDetermine | scripts/map_image_to_cam.py:83-103 | shape and image names together determine a document, so the two lemmas above describe the update completely |
| MapImageToCam.UpdateRootIdempotent | scripts/map_image_to_cam.py:83-103 | updating an updated document changes nothing |
| MapImageToCam.UpdateRootPrefixesAll | scripts/map_image_to_cam.py:83-103 | afterwards every named image at any depth carries the prefix |
| MapImageToCam.BackupPath | scripts/map_image_to_cam.py:106 | the backup path is the file path with `.bak` appended, so it differs from it |
| MapImageToCam.UpdateXmlFile | scripts/map_image_to_cam.py:76-116 | fails exactly on an unparsable file; a dry run changes nothing; otherwise the file holds the updated document, the backup holds the original only if no backup existed (else the old backup is kept), and nothing else changes |
| MapImageToCam.UpdateXmlFileTwice | scripts/map_image_to_cam.py:105-116 | a second run changes nothing: the first original survives in the backup and no name is prefixed twice |
| MapImageToCam.XmlPath | scripts/map_image_to_cam.py:124 | an annotation path ends in `.xml`, so it is never a backup path |
| MapImageToCam.UpdateAnnotations | scripts/map_image_to_cam.py:123-128 | stops with an error naming the first listed, existing file that does not parse, and with none if there is none; the files it returns are those at that point: no file disappears, none changes between parsable and not, only parsable files are added, and a dry run changes nothing |
| MapImageToCam.FirstUnparsable | scripts/map_image_to_cam.py:123-128 | the index of the job the script stops at: no earlier job's file exists unparsable, and that job's file does unless it is past the end |
| MapImageToCam.UpdateAnnotationsFrame | scripts/map_image_to_cam.py:105-128 | a file that is neither the annotation file nor the backup of a job before the stopping point keeps its content |
| MapImageToCam.UpdateAnnotationsNewFiles | scripts/map_image_to_cam.py:105-128 | every file created is the backup of the annotation file of a job before the stopping point |
| MapImageToCam.UpdateAnnotationsContent | scripts/map_image_to_cam.py:76-128 | with distinct stems, each job before the stopping point whose file exists leaves the updated document in it and a backup holding the file's original content, or the backup that was already there |
| MapImageToCam.ScriptUpdatesAnnotations | scripts/map_image_to_cam.py:23-128 | the same for `anno_to_id` itself, whose three stems are distinct |
| MapImageToCam.RenamedFolder | scripts/map_image_to_cam.py:51-73 | every entry ends at its destination (prefixed if it is a regular file without the prefix whose prefixed name was free, else unmoved) with its content, and nothing else is there |
| MapImageToCam.RenameFolder | scripts/map_image_to_cam.py:51-73 | the file loop, one `Step` (one move or none) per listed name, over any listing order of the folder ends in `RenamedFolder`; a dry run changes nothing |
| MapImageToCam.RenamedFolderKeepsEverything | scripts/map_image_to_cam.py:62-73 | distinct entries end at distinct names: no file is overwritten or lost |
| MapImageToCam.RenamedFolderLeftovers | scripts/map_image_to_cam.py:57-67 | after the loop, a regular file without the prefix remains only because its prefixed name is taken |
| MapImageToCam.RenamedFolderIdempotent | scripts/map_image_to_cam.py:51-73 | running the loop on a processed folder changes nothing |
| MapImageToCam.RenameBorough | scripts/map_image_to_cam.py:38-73 | the same entry names remain; a location folder with a camera ID ends as `RenamedFolder` with that camera's prefix; files and unmapped folders are untouched; a dry run changes nothing |
| MapImageToCam.RenameBoroughMoves | scripts/map_image_to_cam.py:38-73 | outside a dry run, a movable file of a mapped location folder ends up, unchanged, under its camera prefix followed by its old name |
| MapImageToCam.RenameBoroughIdempotent | scripts/map_image_to_cam.py:38-73 | processing a borough twice is processing it once |
| MapImageToCam.RenameImages | scripts/map_image_to_cam.py:29-73 | fails exactly when the base directory is missing or not a directory (the bare `exit` does not stop the function); otherwise the same entries remain, each borough directory is processed by `RenameBorough`, other entries are untouched, and a dry run changes nothing |
| MapImageToCam.RenameImagesIdempotent | scripts/map_image_to_cam.py:29-73 | a second run changes nothing |
| MapImageToCam.ScriptRenamesFordham | scripts/map_image_to_cam.py:8-73 | with `loc_to_id` itself, a movable file of the Fordham Road folder ends up, unchanged, under the name `4616552__` followed by its old name |
| ApiSave.ReplaceConcat | scripts/api_save.py:41 | the substitution of `a + b` is that of `a` followed by that of `b`, continuing the run state |
| ApiSave.CollapseRun | scripts/api_save.py:41 | `Collapse`, the substitution `re.sub(r"[^a-zA-Z0-9._-]+", "_", ...)`, turns a whole run of disallowed characters into one `_` |
| ApiSave.CollapseAllowed | scripts/api_save.py:41 | a string of allowed characters is left unchanged by the substitution |
| ApiSave.CollapseConcat | scripts/api_save.py:41 | the substitution works piece by piece when no run straddles the cut |
| ApiSave.CollapseWords | scripts/api_save.py:41 | two words separated by a run of disallowed characters are joined by one `_` |
| ApiSave.CollapseChars | scripts/api_save.py:41 | only allowed characters come out of the substitution |
| ApiSave.CollapseKept | scripts/api_save.py:41 | apart from underscores, the substitution's output is the input's allowed characters other than `_`, in order: disallowed characters are dropped |
| ApiSave.Strip | scripts/api_save.py:41 | the result of `strip('_')` neither starts nor ends with `_` |
| ApiSave.StripSpec | scripts/api_save.py:41 | `strip('_')` returns the slice between the leading and the trailing underscores |
| ApiSave.Sanitize | scripts/api_save.py:40-41 | every output character is in `[a-z0-9._-]`, and the output neither starts nor ends with `_` |
| ApiSave.SanitizeKeeps | scripts/api_save.py:40-41 | apart from underscores, the output is the input's allowed characters, lowercased, in order |
| ApiSave.SanitizeFixpoints | scripts/api_save.py:40-41 | a string is unchanged exactly when it is made of `[a-z0-9._-]` and neither starts nor ends with `_` |
| ApiSave.SanitizeIdempotent | scripts/api_save.py:40-41 | sanitising twice is sanitising once |
| ApiSave.SanitizeExample | scripts/api_save.py:16 | the first wanted camera, `"7 Avenue @ 125 Street"`, becomes `"7_avenue_125_street"` |
| ApiSave.WantedDirName | scripts/api_save.py:16-102 | the first wanted camera, listed without an ID, is saved under `7_avenue_125_street__camera` |
| ApiSave.NameMatches | scripts/api_save.py:43-44 | holds exactly when the lowercased target occurs at some position of the lowercased candidate |
| ApiSave.EmptyTargetMatches | scripts/api_save.py:43-44 | the empty target matches every candidate |
| ApiSave.NameMatchesIgnoresCase | scripts/api_save.py:43-44 | lowercasing either argument first does not change the answer |
| ApiSave.AnyMatches | scripts/api_save.py:86 | holds exactly when some wanted name matches |
| ApiSave.Select | scripts/api_save.py:85-87 | the selection holds exactly the cameras passing the filter, in the API's order, each as many times as the API lists it |
| Seqs.FilterCount | scripts/api_save.py:85-87 | filtering keeps every copy of an element that passes and no copy of one that does not |
| ApiSave.SelectIff | scripts/api_save.py:85-87 | a camera is selected exactly when its name is non-empty and matches some wanted name and its URL is non-empty and not `"Unknown"` |
| ApiSave.CameraId | scripts/api_save.py:95 | a missing ID reads as `"camera"`, a string ID as itself; only an ID that is not a string gives none |
| ApiSave.DirName | scripts/api_save.py:102 | there is a name exactly when the ID is absent or a string; it is one path component of `[a-z0-9._-]`, never `.` or `..` |
| ApiSave.DirNameWithId | scripts/api_save.py:94-102 | a camera with a string ID is saved under `<sanitised name>__<sanitised ID>` |
| ApiSave.DirNameWithoutId | scripts/api_save.py:95-102 | a camera without an ID is saved under `<sanitised name>__camera` |
| ApiSave.DirOf | scripts/api_save.py:94-102 | a camera has a directory exactly when it is named and its ID is absent or a string |
| ApiSave.FetchPlan | scripts/api_save.py:89-102 | an empty selection ends the run with nothing fetched; otherwise the directories are those of the selected cameras in order, all of them unless the run stops at a camera whose ID is not a string |
| Text.LowerChar | scripts/api_save.py:40-44 | an upper-case ASCII letter becomes the letter at the same place in the lower-case alphabet; every other character is kept; no upper-case letter comes out |
| Text.LowerAlphabet | scripts/api_save.py:40-44 | lowercasing the upper-case alphabet gives the lower-case alphabet |
| Text.DecimalRoundTrip | scripts/map_image_to_cam.py:99 | the decimal numeral of a number reads back as that number |
| Text.LinesOfJoinLines | scripts/create_splits.py:87-89 | names without newlines, written one per line, read back as the same list |
| StringOrder.SortDistinct | scripts/create_splits.py:66 | strictly ascending under Python's string order, with exactly the input's elements |
| StringOrder.StrictlySortedUnique | scripts/create_splits.py:66 | a strictly ascending list is determined by its elements, so `sorted(set(...))` has one answer |

## Left out

- XML parsing and writing (`ET.parse`, `deepcopy`, `ET.indent`, `tree.write`) are not modelled.
  An input document is given as its parsed root, or as `None` when it does not parse.
  A written document is given as the tree as built, before `ET.indent` (`scripts/create_splits.py:28`)
  rewrites its whitespace-only text and tails.
- The command line (`argparse` and its defaults) and every `print` are not modelled. This
  includes the summary at `scripts/create_splits.py:91-93`.
- Python's Mersenne Twister (`random.Random(seed).shuffle`) is a parameter of the model. It is
  only required to return a permutation for every seed.
- Floating point: ratios are exact reals, so the 1e-6 tolerance and `round` act on exact
  products. Rounding errors of `train * n` in binary floating point are not modelled.
- CreateSplits.RunSplit: once the ratio sum check passes, it requires `0 <= train <= 1` and
  `0 <= val`. The code does not check this. The sizes disagree with the slices only when
  `round(train * n) > n`, `round(train * n) < 0` or `round(val * n) < 0`. Ratios within the
  tolerance that round back inside are handled normally by the script, but they are excluded
  as well.
- CreateSplits.ImageRecords: requires every `<image>` child to carry a `name`. An unnamed
  element would enter the duplicate check as `None` and make the name-list write at
  `scripts/create_splits.py:89` raise.
- File-system failures are not modelled: a failing `mkdir`, an unwritable output, permissions.
  In `update_xml_file`, a path that cannot be read or parsed counts as `Malformed`.
- MapImageToCam.UpdateAnnotationsContent: states the content of each completed job's files
  only when no two jobs name the same file, as in the script's own table. With a repeated
  stem, a later job rewrites an earlier job's file; that case is covered only by
  `MapImageToCam.UpdateAnnotationsFrame` and `MapImageToCam.UpdateAnnotationsNewFiles`.
- `rename_images` is not called at the top level (line 120 is commented out); it is modelled
  anyway.
- Iteration order of the image folders. The file loop of one folder runs over a listing
  taken when the loop starts; `MapImageToCam.RenameFolder` takes that order as a parameter
  and its result does not depend on it. The borough and location loops are modelled by
  their result, since folders do not interact.
- Symbolic links, case-insensitive file systems and concurrent changes to the folders are not
  modelled. Anything that is neither a regular file nor a directory is `Other`.
- The network side of `scripts/api_save.py` is not modelled: `fetch_all_cameras`,
  `try_fetch_image_direct`, `save_stream_to`, the request headers, the API key, and the
  handling of download errors at lines 106-116. `IMG_URL_REGEX` is never used.
- ApiSave.FetchPlan: states the directory each camera is saved into, not the timestamped file
  name or the `.jpg` suffix, which depend on the clock and the network.
- Camera records whose `Name` or `Url` is present but not a string are not modelled
  (`Camera` holds strings only).
- ApiSave.NameMatches: folds case with `Text.Lower`, which lowercases ASCII letters only. This
  is weaker than Python's Unicode `lower` in `name_matches`. For `sanitize_filename` it is
  exact, because its substitution removes every non-ASCII character first.
- `scripts/camera_capture.py` and `scripts/camera_capture_old.py` are screenshot loops with
  nothing to state, and are not part of this model.

/** The camera-snapshot script: choosing cameras from the traffic API's list by name and building
    a file-system-safe directory name for each. */
module ApiSave {
  import opened Wrappers
  import opened Seqs
  import opened Text

  /** `wanted_cameras`. */
  const WantedCameras: seq<string> := ["7 Avenue @ 125 Street", "7 Avenue @ 34 Street"]

  // ---------------------------------------------------------------------------------------------
  // `sanitize_filename`

  /** The characters the pattern `[^a-zA-Z0-9._-]` does not match. */
  predicate Allowed(c: char) {
    'a' <= c <= 'z' || 'A' <= c <= 'Z' || '0' <= c <= '9' || c == '.' || c == '_' || c == '-'
  }

  /** The characters of a sanitised name: `[a-z0-9._-]`. */
  predicate SafeChar(c: char) {
    'a' <= c <= 'z' || '0' <= c <= '9' || c == '.' || c == '_' || c == '-'
  }

  function NotUnderscore(c: char): bool {
    c != '_'
  }

  /** The characters that survive sanitising as themselves (up to case): allowed, and not `_`. */
  function Kept(c: char): bool {
    Allowed(c) && c != '_'
  }

  /** The left-to-right scan of `re.sub(r'[^a-zA-Z0-9._-]+', '_', s)`. `inRun` records that the
      character before `s` was disallowed, so that its run has already produced its `_`. */
  function Replace(s: string, inRun: bool): string {
    if s == [] then [] else Emit(s[0], inRun) + Replace(s[1..], !Allowed(s[0]))
  }

  /** What the scan writes for one character: the character itself if it is allowed, the `_` of a
      run at the run's first character, and nothing for the rest of the run. */
  function Emit(c: char, inRun: bool): string {
    if Allowed(c) then [c] else if inRun then [] else "_"
  }

  /** `re.sub(r'[^a-zA-Z0-9._-]+', '_', s)`: each maximal run of disallowed characters is replaced
      by a single `_`. */
  function Collapse(s: string): string {
    Replace(s, false)
  }

  /** Whether the scan is inside a run after reading `s`. */
  function RunAfter(s: string, inRun: bool): bool {
    if s == [] then inRun else !Allowed(s[|s| - 1])
  }

  /** `s.lstrip('_')`. */
  function StripLeft(s: string): (r: string)
    ensures |r| <= |s|
    ensures r == [] || r[0] != '_'
  {
    if s != [] && s[0] == '_' then StripLeft(s[1..]) else s
  }

  /** `StripLeft` removes exactly the leading underscores: what remains is a suffix of `s`. */
  lemma {:induction false} StripLeftSpec(s: string)
    ensures var r := StripLeft(s);
            && r == s[|s| - |r|..]
            && forall i :: 0 <= i < |s| - |r| ==> s[i] == '_'
  {
    if s != [] && s[0] == '_' {
      StripLeftSpec(s[1..]);
      var r := StripLeft(s);
      assert s[1..][|s| - 1 - |r|..] == s[|s| - |r|..];
    }
  }

  /** `s.rstrip('_')`. */
  function StripRight(s: string): (r: string)
    ensures |r| <= |s|
    ensures r == [] || r[|r| - 1] != '_'
  {
    if s != [] && s[|s| - 1] == '_' then StripRight(s[..|s| - 1]) else s
  }

  /** `StripRight` removes exactly the trailing underscores: what remains is a prefix of `s`. */
  lemma {:induction false} StripRightSpec(s: string)
    ensures var r := StripRight(s);
            && r == s[..|r|]
            && forall i :: |r| <= i < |s| ==> s[i] == '_'
  {
    if s != [] && s[|s| - 1] == '_' {
      StripRightSpec(s[..|s| - 1]);
      var r := StripRight(s);
      assert s[..|s| - 1][..|r|] == s[..|r|];
    }
  }

  /** `s.strip('_')`. */
  function Strip(s: string): (r: string)
    ensures r == [] || (r[0] != '_' && r[|r| - 1] != '_')
  {
    var l := StripLeft(s);
    StripRightSpec(l);
    var r := StripRight(l);
    assert r != [] ==> r[0] == l[0];
    r
  }

  /** `Strip` returns the slice of `s` between its leading and its trailing underscores. */
  lemma StripSpec(s: string)
    ensures var i, r := |s| - |StripLeft(s)|, Strip(s);
            && i + |r| <= |s| && r == s[i..i + |r|]
            && (forall k :: 0 <= k < i ==> s[k] == '_')
            && (forall k :: i + |r| <= k < |s| ==> s[k] == '_')
  {
    var l := StripLeft(s);
    var i := |s| - |l|;
    StripLeftSpec(s);
    StripRightSpec(l);
    var r := Strip(s);
    assert r == l[..|r|];
    forall k | i + |r| <= k < |s| ensures s[k] == '_' {
      assert s[k] == l[k - i];
    }
  }

  lemma StripAllowed(s: string)
    requires forall i :: 0 <= i < |s| ==> Allowed(s[i])
    ensures forall i :: 0 <= i < |Strip(s)| ==> Allowed(Strip(s)[i])
  {
    StripSpec(s);
    var i := |s| - |StripLeft(s)|;
    forall k | 0 <= k < |Strip(s)| ensures Allowed(Strip(s)[k]) {
      assert Strip(s)[k] == s[i + k];
    }
  }

  lemma LowerCharUnderscore(c: char)
    ensures LowerChar(c) == '_' <==> c == '_'
  {
  }

  /** Lowercasing a string of allowed characters gives safe characters and keeps underscores where
      they were. */
  lemma LowerAllowed(s: string)
    requires forall i :: 0 <= i < |s| ==> Allowed(s[i])
    ensures forall i :: 0 <= i < |s| ==> SafeChar(Lower(s)[i])
    ensures forall i :: 0 <= i < |s| ==> (Lower(s)[i] == '_' <==> s[i] == '_')
  {
    forall i | 0 <= i < |s| ensures SafeChar(Lower(s)[i]) && (Lower(s)[i] == '_' <==> s[i] == '_') {
      LowerCharUnderscore(s[i]);
    }
  }

  /** `sanitize_filename(name)`: the result consists of `[a-z0-9._-]` only and neither starts nor
      ends with `_`. */
  function Sanitize(name: string): (r: string)
    ensures forall i :: 0 <= i < |r| ==> SafeChar(r[i])
    ensures r == [] || (r[0] != '_' && r[|r| - 1] != '_')
  {
    var c := Collapse(name);
    var s := Strip(c);
    CollapseChars(name);
    StripAllowed(c);
    LowerAllowed(s);
    Lower(s)
  }

  // Collapse, run by run

  lemma {:induction false} ReplaceChars(s: string, inRun: bool)
    ensures forall i :: 0 <= i < |Replace(s, inRun)| ==> Allowed(Replace(s, inRun)[i])
  {
    if s != [] {
      ReplaceChars(s[1..], !Allowed(s[0]));
    }
  }

  /** Only allowed characters come out of the substitution. */
  lemma CollapseChars(s: string)
    ensures forall i :: 0 <= i < |Collapse(s)| ==> Allowed(Collapse(s)[i])
  {
    ReplaceChars(s, false);
  }

  /** The scan of `a + b` is the scan of `a`, then the scan of `b` from the state `a` leaves. */
  lemma {:induction false} ReplaceConcat(a: string, b: string, inRun: bool)
    ensures Replace(a + b, inRun) == Replace(a, inRun) + Replace(b, RunAfter(a, inRun))
  {
    if a == [] {
      assert a + b == b;
    } else {
      var next := !Allowed(a[0]);
      var head := Emit(a[0], inRun);
      assert (a + b)[0] == a[0] && (a + b)[1..] == a[1..] + b;
      assert RunAfter(a[1..], next) == RunAfter(a, inRun) by {
        if a[1..] != [] {
          assert a[1..][|a| - 2] == a[|a| - 1];
        }
      }
      calc {
        Replace(a + b, inRun);
        head + Replace(a[1..] + b, next);
        { ReplaceConcat(a[1..], b, next); }
        head + (Replace(a[1..], next) + Replace(b, RunAfter(a, inRun)));
        (head + Replace(a[1..], next)) + Replace(b, RunAfter(a, inRun));
      }
    }
  }

  lemma {:induction false} ReplaceAllowed(s: string, inRun: bool)
    requires forall i :: 0 <= i < |s| ==> Allowed(s[i])
    ensures Replace(s, inRun) == s
  {
    if s != [] {
      ReplaceAllowed(s[1..], false);
    }
  }

  lemma {:induction false} ReplaceRun(s: string, inRun: bool)
    requires forall i :: 0 <= i < |s| ==> !Allowed(s[i])
    ensures Replace(s, inRun) == if inRun || s == [] then [] else "_"
  {
    if s != [] {
      ReplaceRun(s[1..], true);
    }
  }

  /** A string of allowed characters is left unchanged. */
  lemma CollapseAllowed(s: string)
    requires forall i :: 0 <= i < |s| ==> Allowed(s[i])
    ensures Collapse(s) == s
  {
    ReplaceAllowed(s, false);
  }

  /** A whole run of disallowed characters becomes one `_`. */
  lemma CollapseRun(s: string)
    requires s != [] && forall i :: 0 <= i < |s| ==> !Allowed(s[i])
    ensures Collapse(s) == "_"
  {
    ReplaceRun(s, false);
  }

  /** Replacing runs works piece by piece when no run straddles the cut. */
  lemma CollapseConcat(a: string, b: string)
    requires a == [] || b == [] || Allowed(a[|a| - 1]) || Allowed(b[0])
    ensures Collapse(a + b) == Collapse(a) + Collapse(b)
  {
    ReplaceConcat(a, b, false);
    if b != [] && Allowed(b[0]) {
      assert Emit(b[0], true) == Emit(b[0], false);
    }
  }

  // The characters that are kept

  lemma {:induction false} ReplaceKept(s: string, inRun: bool)
    ensures Filter(NotUnderscore, Replace(s, inRun)) == Filter(Kept, s)
  {
    if s != [] {
      var next := !Allowed(s[0]);
      ReplaceKept(s[1..], next);
      FilterConcat(NotUnderscore, Emit(s[0], inRun), Replace(s[1..], next));
      assert Filter(NotUnderscore, Emit(s[0], inRun)) == Filter(Kept, [s[0]]);
      FilterConcat(Kept, [s[0]], s[1..]);
      assert s == [s[0]] + s[1..];
    }
  }

  /** Apart from underscores, what replacing runs leaves is the input's allowed characters other
      than `_`, in order: disallowed characters are dropped (each run becomes one `_`). */
  lemma CollapseKept(s: string)
    ensures Filter(NotUnderscore, Collapse(s)) == Filter(Kept, s)
  {
    ReplaceKept(s, false);
  }

  lemma {:induction false} StripLeftKept(s: string)
    ensures Filter(NotUnderscore, StripLeft(s)) == Filter(NotUnderscore, s)
  {
    if s != [] && s[0] == '_' {
      StripLeftKept(s[1..]);
    }
  }

  lemma {:induction false} StripRightKept(s: string)
    ensures Filter(NotUnderscore, StripRight(s)) == Filter(NotUnderscore, s)
  {
    if s != [] && s[|s| - 1] == '_' {
      var init := s[..|s| - 1];
      StripRightKept(init);
      assert s == init + [s[|s| - 1]];
      FilterConcat(NotUnderscore, init, [s[|s| - 1]]);
    }
  }

  lemma {:induction false} LowerKept(s: string)
    ensures Filter(NotUnderscore, Lower(s)) == Lower(Filter(NotUnderscore, s))
  {
    if s != [] {
      var t := Lower(s);
      LowerKept(s[1..]);
      LowerCharUnderscore(s[0]);
      LowerTail(s);
      var rest := Filter(NotUnderscore, s[1..]);
      if s[0] != '_' {
        assert Filter(NotUnderscore, s) == [s[0]] + rest;
        LowerConcat([s[0]], rest);
        assert Lower([s[0]]) == [t[0]];
      } else {
        assert Filter(NotUnderscore, s) == rest;
      }
    }
  }

  /** Apart from underscores, the sanitised name is the name's allowed characters, lowercased, in
      their original order. */
  lemma SanitizeKeeps(name: string)
    ensures Filter(NotUnderscore, Sanitize(name)) == Lower(Filter(Kept, name))
  {
    var c := Collapse(name);
    CollapseKept(name);
    StripLeftKept(c);
    StripRightKept(StripLeft(c));
    LowerKept(Strip(c));
  }

  // Fixpoints and idempotence

  /** A name is left unchanged by sanitising exactly when it is already made of `[a-z0-9._-]` and
      neither starts nor ends with `_`. */
  lemma SanitizeFixpoints(s: string)
    ensures Sanitize(s) == s <==>
              (forall i :: 0 <= i < |s| ==> SafeChar(s[i])) && (s == [] || (s[0] != '_' && s[|s| - 1] != '_'))
  {
    if (forall i :: 0 <= i < |s| ==> SafeChar(s[i])) && (s == [] || (s[0] != '_' && s[|s| - 1] != '_')) {
      CollapseAllowed(s);
      assert StripLeft(s) == s;
      assert StripRight(s) == s;
      assert Lower(s) == s;
    }
  }

  /** Sanitising twice is sanitising once. */
  lemma SanitizeIdempotent(name: string)
    ensures Sanitize(Sanitize(name)) == Sanitize(name)
  {
    SanitizeFixpoints(Sanitize(name));
  }

  /** Two words separated by a run of disallowed characters are joined by one `_`. */
  lemma CollapseWords(a: string, r: string, b: string)
    requires forall i :: 0 <= i < |a| ==> Allowed(a[i])
    requires a != [] && r != [] && forall i :: 0 <= i < |r| ==> !Allowed(r[i])
    requires b == [] || Allowed(b[0])
    ensures Collapse(a + r + b) == a + "_" + Collapse(b)
  {
    calc {
      Collapse(a + r + b);
      { assert a + r + b == a + (r + b); }
      Collapse(a + (r + b));
      { assert (r + b)[0] == r[0]; CollapseConcat(a, r + b); }
      Collapse(a) + Collapse(r + b);
      { CollapseAllowed(a); CollapseConcat(r, b); CollapseRun(r); }
      a + ("_" + Collapse(b));
    }
  }

  lemma ExampleStreet()
    ensures Collapse("125 Street") == "125_Street"
  {
    var b := "Street";
    assert "125" + " " + b == "125 Street";
    assert "125" + "_" + b == "125_Street";
    CollapseWords("125", " ", b);
    CollapseAllowed(b);
  }

  lemma ExampleAvenue()
    ensures Collapse("Avenue @ 125 Street") == "Avenue_125_Street"
  {
    var b := "125 Street";
    var a := "Avenue";
    var r := " @ ";
    assert a + r + b == "Avenue @ 125 Street";
    assert a + "_" + "125_Street" == "Avenue_125_Street";
    CollapseWords(a, r, b);
    ExampleStreet();
  }

  lemma ExampleCollapse()
    ensures Collapse("7 Avenue @ 125 Street") == "7_Avenue_125_Street"
  {
    var b := "Avenue @ 125 Street";
    assert "7" + " " + b == "7 Avenue @ 125 Street";
    assert "7" + "_" + "Avenue_125_Street" == "7_Avenue_125_Street";
    CollapseWords("7", " ", b);
    ExampleAvenue();
  }

  /** The name of the first wanted camera. */
  lemma SanitizeExample()
    ensures Sanitize("7 Avenue @ 125 Street") == "7_avenue_125_street"
    ensures WantedCameras[0] == "7 Avenue @ 125 Street"
  {
    var c := "7_Avenue_125_Street";
    assert Lower(c) == "7_avenue_125_street";
    assert StripLeft(c) == c;
    assert StripRight(c) == c;
    assert Strip(c) == c;
    ExampleCollapse();
  }

  // ---------------------------------------------------------------------------------------------
  // Selecting cameras

  /** `name_matches(target, candidate)`: the target, lowercased, occurs in the lowercased candidate. */
  function NameMatches(target: string, candidate: string): (b: bool)
    ensures b <==> exists i :: OccursAt(Lower(target), Lower(candidate), i)
  {
    SubstringAtIndex(Lower(target), Lower(candidate));
    IsSubstring(Lower(target), Lower(candidate))
  }

  /** The empty target matches every candidate. */
  lemma EmptyTargetMatches(candidate: string)
    ensures NameMatches("", candidate)
  {
    EmptyIsSubstring(Lower(candidate));
  }

  lemma LowerIdempotent(s: string)
    ensures Lower(Lower(s)) == Lower(s)
  {
  }

  /** Matching ignores the case of both the target and the candidate. */
  lemma NameMatchesIgnoresCase(target: string, candidate: string)
    ensures NameMatches(Lower(target), candidate) == NameMatches(target, candidate)
    ensures NameMatches(target, Lower(candidate)) == NameMatches(target, candidate)
  {
    LowerIdempotent(target);
    LowerIdempotent(candidate);
  }

  /** `any(name_matches(w, name) for w in wanted)`. */
  function AnyMatches(wanted: seq<string>, name: string): (b: bool)
    ensures b <==> exists i :: 0 <= i < |wanted| && NameMatches(wanted[i], name)
  {
    if wanted == [] then false
    else
      NameMatches(wanted[0], name) || (
        var b := AnyMatches(wanted[1..], name);
        assert b <==> exists i :: 1 <= i < |wanted| && NameMatches(wanted[i], name) by {
          if b {
            var i :| 0 <= i < |wanted[1..]| && NameMatches(wanted[1..][i], name);
            assert wanted[i + 1] == wanted[1..][i];
          }
          forall i | 1 <= i < |wanted| && NameMatches(wanted[i], name) ensures b {
            assert wanted[1..][i - 1] == wanted[i];
          }
        }
        b)
  }

  /** The `ID` entry of a camera record: absent, a string, or some other JSON value. */
  datatype IdField = NoId | IdText(text: string) | IdOther

  /** One record of the API's camera list: `Name` and `Url` (absent or a string), and `ID`. */
  datatype Camera = Camera(name: Option<string>, url: Option<string>, id: IdField)

  /** The filter of lines 85-87. */
  predicate Selected(wanted: seq<string>, c: Camera) {
    && c.name.Some? && c.name.value != ""
    && AnyMatches(wanted, c.name.value)
    && c.url.Some? && c.url.value != "" && c.url.value != "Unknown"
  }

  /** The selection: the selected cameras, in the API's order. */
  function Select(wanted: seq<string>, cameras: seq<Camera>): (r: seq<Camera>)
    ensures forall i :: 0 <= i < |r| ==> r[i] in cameras && Selected(wanted, r[i])
    ensures forall i :: 0 <= i < |cameras| && Selected(wanted, cameras[i]) ==> cameras[i] in r
    ensures IsSubsequence(r, cameras)
    ensures forall c :: multiset(r)[c] == if Selected(wanted, c) then multiset(cameras)[c] else 0
  {
    FilterIsSubsequence(c => Selected(wanted, c), cameras);
    FilterCount(c => Selected(wanted, c), cameras);
    Filter(c => Selected(wanted, c), cameras)
  }

  /** A camera is chosen exactly when it has a non-empty name matching some wanted name and a
      usable page URL. */
  lemma SelectIff(wanted: seq<string>, cameras: seq<Camera>, c: Camera)
    requires c in cameras
    ensures c in Select(wanted, cameras) <==>
              && c.name.Some? && c.name.value != ""
              && (exists i :: 0 <= i < |wanted| && NameMatches(wanted[i], c.name.value))
              && c.url.Some? && c.url.value != "" && c.url.value != "Unknown"
  {
    var r := Select(wanted, cameras);
    if c in r {
      var i :| 0 <= i < |r| && r[i] == c;
    }
  }

  // ---------------------------------------------------------------------------------------------
  // Directory names and the run

  /** The `ID` a camera record without one is saved under. */
  const DefaultId: string := "camera"

  /** `sanitize_filename(cam.get("ID", "camera"))`: a missing ID reads as `"camera"`; an ID that is
      not a string makes `re.sub` raise. */
  function CameraId(id: IdField): (r: Option<string>)
    ensures r.None? <==> id.IdOther?
    ensures id.NoId? ==> r == Some(DefaultId)
    ensures id.IdText? ==> r == Some(id.text)
  {
    match id
    case NoId => Some(DefaultId)
    case IdText(t) => Some(t)
    case IdOther => None
  }

  /** Joining two safe strings with `__`. */
  lemma SafeJoin(a: string, b: string)
    requires forall i :: 0 <= i < |a| ==> SafeChar(a[i])
    requires forall i :: 0 <= i < |b| ==> SafeChar(b[i])
    ensures var d := a + "__" + b;
            |d| >= 2 && d != "." && d != ".." && forall i :: 0 <= i < |d| ==> SafeChar(d[i])
  {
    var d := a + "__" + b;
    assert d[|a|] == '_';
  }

  /** `f"{sanitize_filename(cam_name)}__{sanitize_filename(cam_id)}"`: one path component made of
      `[a-z0-9._-]`, never `.` or `..`. */
  function DirName(c: Camera): (r: Option<string>)
    requires c.name.Some?
    ensures r.None? <==> c.id.IdOther?
    ensures r.Some? ==> |r.value| >= 2 && r.value != "." && r.value != ".."
    ensures r.Some? ==> forall i :: 0 <= i < |r.value| ==> SafeChar(r.value[i])
  {
    match CameraId(c.id)
    case None => None
    case Some(id) =>
      SafeJoin(Sanitize(c.name.value), Sanitize(id));
      Some(Sanitize(c.name.value) + "__" + Sanitize(id))
  }

  /** A camera without an ID is saved under `<sanitised name>__camera`. */
  lemma DirNameWithoutId(c: Camera)
    requires c.name.Some? && c.id.NoId?
    ensures DirName(c) == Some(Sanitize(c.name.value) + "__" + DefaultId)
  {
    SanitizeCamera();
  }

  /** A camera with a string ID is saved under `<sanitised name>__<sanitised ID>`. */
  lemma DirNameWithId(c: Camera)
    requires c.name.Some? && c.id.IdText?
    ensures DirName(c) == Some(Sanitize(c.name.value) + "__" + Sanitize(c.id.text))
  {
  }

  lemma SanitizeCamera()
    ensures Sanitize(DefaultId) == DefaultId
  {
    var s := DefaultId;
    assert forall i :: 0 <= i < |s| ==> SafeChar(s[i]);
    SanitizeFixpoints(s);
  }

  /** The first wanted camera, listed without an `ID`, is saved under `7_avenue_125_street__camera`. */
  lemma WantedDirName(c: Camera)
    requires c.name == Some(WantedCameras[0]) && c.id.NoId?
    ensures DirName(c) == Some("7_avenue_125_street__camera")
  {
    var n := "7_avenue_125_street";
    assert n + "__" + DefaultId == "7_avenue_125_street__camera";
    DirNameWithoutId(c);
    assert Sanitize(c.name.value) == n by {
      SanitizeExample();
    }
  }

  lemma SelectedNamed(wanted: seq<string>, cameras: seq<Camera>)
    ensures var sel := Select(wanted, cameras);
            forall i :: 0 <= i < |sel| ==> sel[i].name.Some?
  {
  }

  /** How `main` ends: nothing selected, every selected camera handled, or stopped at the `k`-th
      selected camera, whose `ID` is not a string. */
  datatype Outcome = NothingMatched | Finished | IdNotText(k: nat)

  /** The directories `main` saves into, in order, and how it ends. The downloads themselves and the
      timestamped file names are not modelled. */
  datatype Plan = Plan(dirs: seq<string>, outcome: Outcome)

  /** The directory of a camera, where it has one: named, with an `ID` that is absent or a string. */
  function DirOf(c: Camera): (r: Option<string>)
    ensures r.Some? <==> c.name.Some? && !c.id.IdOther?
  {
    if c.name.None? then None else DirName(c)
  }

  /** `main` after the camera list has been fetched: an empty selection returns at once; otherwise
      the selected cameras are visited in order, each saved under `DirOf`, until one whose `ID` is
      not a string raises. */
  method FetchPlan(wanted: seq<string>, cameras: seq<Camera>) returns (p: Plan)
    ensures p.outcome == NothingMatched <==> Select(wanted, cameras) == []
    ensures p.outcome == NothingMatched ==> p.dirs == []
    ensures |p.dirs| <= |Select(wanted, cameras)|
    ensures Pointwise(DirOf, Select(wanted, cameras), p.dirs)
    ensures p.outcome == Finished ==> |p.dirs| == |Select(wanted, cameras)|
    ensures p.outcome.IdNotText? ==>
              var sel := Select(wanted, cameras);
              p.outcome.k == |p.dirs| < |sel| && sel[p.outcome.k].id.IdOther?
  {
    var sel := Select(wanted, cameras);
    SelectedNamed(wanted, cameras);
    if sel == [] {
      return Plan([], NothingMatched);
    }
    var dirs: seq<string> := [];
    for i := 0 to |sel|
      invariant |dirs| == i
      invariant Pointwise(DirOf, sel, dirs)
    {
      match DirOf(sel[i]) {
        case None =>
          return Plan(dirs, IdNotText(i));
        case Some(d) =>
          PointwiseNext(DirOf, sel, dirs, d);
          dirs := dirs + [d];
      }
    }
    return Plan(dirs, Finished);
  }
}

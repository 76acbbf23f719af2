/** The list and set computations of the per-organisation analysis: the
    management/data split of Swagger files and TypeSpec projects, API-version
    uniformity of readme `input-file` lists, and the compliant/non-compliant
    split of an organisation's folders; also `find_typespec_projects`, which
    the script defines but does not call. Directory walks and file reads are
    replaced by the sequences they yield. */
module OrgAnalysis {
  import opened Strings
  import opened Paths
  import opened FolderStructure

  datatype Option<T> = None | Some(value: T)

  // ---------------------------------------------------------------------
  // TypeSpec project directories
  // ---------------------------------------------------------------------

  /** The directories holding a `tspconfig.yaml` or a `main.tsp`, each once,
      given the paths of both kinds of file found under the specification
      folder. */
  method FindTypeSpecProjects(tspconfigFiles: seq<string>, mainTspFiles: seq<string>)
    returns (projectDirs: set<string>)
    ensures forall d :: d in projectDirs <==>
      (exists f :: f in tspconfigFiles && Dirname(f) == d) || (exists f :: f in mainTspFiles && Dirname(f) == d)
  {
    projectDirs := {};
    for i := 0 to |tspconfigFiles|
      invariant forall d :: d in projectDirs <==> exists j :: 0 <= j < i && Dirname(tspconfigFiles[j]) == d
    {
      projectDirs := projectDirs + {Dirname(tspconfigFiles[i])};
    }
    ghost var fromConfig := projectDirs;
    for i := 0 to |mainTspFiles|
      invariant forall d :: d in projectDirs <==> d in fromConfig || exists j :: 0 <= j < i && Dirname(mainTspFiles[j]) == d
    {
      projectDirs := projectDirs + {Dirname(mainTspFiles[i])};
    }
  }

  /** A directory whose `tspconfig.yaml` and `main.tsp` were both found is
      reported once, as itself. */
  lemma ProjectWithBothFilesReportedOnce(root: string)
    requires root != "" && root[|root| - 1] != '/'
    ensures Dirname(JoinPath(root, "tspconfig.yaml")) == root
    ensures Dirname(JoinPath(root, "main.tsp")) == root
  {
    DirnameOfJoinPath(root, "tspconfig.yaml");
    DirnameOfJoinPath(root, "main.tsp");
  }

  /** Whatever the directory, its `tspconfig.yaml` and its `main.tsp` give the
      same directory, so a project holding both is reported once. */
  lemma BothFilesShareDirname(root: string)
    ensures Dirname(JoinPath(root, "tspconfig.yaml")) == Dirname(JoinPath(root, "main.tsp"))
  {
    DirnameOfJoinPathIgnoresName(root, "tspconfig.yaml", "main.tsp");
  }

  // ---------------------------------------------------------------------
  // Swagger files: management plane versus data plane
  // ---------------------------------------------------------------------

  datatype Plane = Management | DataPlane | Unclassified

  /** `file` was found by walking the organisation folder `org`. */
  predicate IsUnder(org: string, file: string) {
    StartsWith(file, org + "/")
  }

  /** `os.path.relpath(file, org)` for a file found under `org`. */
  function RelativeTo(org: string, file: string): string
    requires IsUnder(org, file)
  {
    file[|org| + 1..]
  }

  /** The plane a Swagger file is counted in, by its path below `org`:
      `resource-manager` wins over `data-plane`; a file with neither is
      counted in neither list. */
  function SwaggerPlane(org: string, file: string): Plane
    requires IsUnder(org, file)
  {
    var rel := RelativeTo(org, file);
    if Contains(rel, "resource-manager") then Management
    else if Contains(rel, "data-plane") then DataPlane
    else Unclassified
  }

  /** The files of `files` in the given plane, in their original order. */
  function SwaggerFilesOf(org: string, files: seq<string>, plane: Plane): (r: seq<string>)
    requires forall f :: f in files ==> IsUnder(org, f)
    ensures |r| <= |files|
    ensures forall f :: f in r <==> f in files && SwaggerPlane(org, f) == plane
  {
    if files == [] then []
    else
      var f := Last(files);
      SwaggerFilesOf(org, files[..|files| - 1], plane) + (if SwaggerPlane(org, f) == plane then [f] else [])
  }

  /** Selecting from a list with one more file at its end. */
  lemma SwaggerFilesOfSnoc(org: string, init: seq<string>, f: string, plane: Plane)
    requires forall g :: g in init ==> IsUnder(org, g)
    requires IsUnder(org, f)
    ensures SwaggerFilesOf(org, init + [f], plane)
      == SwaggerFilesOf(org, init, plane) + (if SwaggerPlane(org, f) == plane then [f] else [])
  {
    assert (init + [f])[..|init|] == init;
  }

  /** Selecting by plane commutes with concatenation: the selection keeps
      the input order. */
  lemma {:induction false} SwaggerFilesOfAppend(org: string, a: seq<string>, b: seq<string>, plane: Plane)
    requires forall f :: f in a + b ==> IsUnder(org, f)
    ensures SwaggerFilesOf(org, a + b, plane) == SwaggerFilesOf(org, a, plane) + SwaggerFilesOf(org, b, plane)
    decreases |b|
  {
    if b == [] {
      assert a + b == a;
    } else {
      var init, f := b[..|b| - 1], Last(b);
      assert b == init + [f];
      assert a + b == (a + init) + [f];
      var extra := if SwaggerPlane(org, f) == plane then [f] else [];
      calc {
        SwaggerFilesOf(org, a + b, plane);
        { SwaggerFilesOfSnoc(org, a + init, f, plane); }
        SwaggerFilesOf(org, a + init, plane) + extra;
        { SwaggerFilesOfAppend(org, a, init, plane); }
        SwaggerFilesOf(org, a, plane) + SwaggerFilesOf(org, init, plane) + extra;
        { SwaggerFilesOfSnoc(org, init, f, plane); }
        SwaggerFilesOf(org, a, plane) + SwaggerFilesOf(org, b, plane);
      }
    }
  }

  /** Every file lands in exactly one of the three planes. */
  lemma {:induction false} SwaggerPartition(org: string, files: seq<string>)
    requires forall f :: f in files ==> IsUnder(org, f)
    ensures multiset(SwaggerFilesOf(org, files, Management)) + multiset(SwaggerFilesOf(org, files, DataPlane))
      + multiset(SwaggerFilesOf(org, files, Unclassified)) == multiset(files)
    decreases |files|
  {
    if files != [] {
      var init, f := files[..|files| - 1], Last(files);
      assert files == init + [f];
      SwaggerPartition(org, init);
      SwaggerFilesOfSnoc(org, init, f, Management);
      SwaggerFilesOfSnoc(org, init, f, DataPlane);
      SwaggerFilesOfSnoc(org, init, f, Unclassified);
      assert multiset(files) == multiset(init) + multiset{f};
    }
  }

  method ClassifySwaggerFiles(org: string, swaggerFiles: seq<string>)
    returns (mgmtSwagger: seq<string>, dataSwagger: seq<string>)
    requires forall f :: f in swaggerFiles ==> IsUnder(org, f)
    ensures mgmtSwagger == SwaggerFilesOf(org, swaggerFiles, Management)
    ensures dataSwagger == SwaggerFilesOf(org, swaggerFiles, DataPlane)
    ensures forall f :: f in mgmtSwagger ==> f !in dataSwagger
  {
    mgmtSwagger, dataSwagger := [], [];
    for i := 0 to |swaggerFiles|
      invariant mgmtSwagger == SwaggerFilesOf(org, swaggerFiles[..i], Management)
      invariant dataSwagger == SwaggerFilesOf(org, swaggerFiles[..i], DataPlane)
    {
      assert swaggerFiles[..i + 1][..i] == swaggerFiles[..i];
      var rel := RelativeTo(org, swaggerFiles[i]);
      if Contains(rel, "resource-manager") {
        mgmtSwagger := mgmtSwagger + [swaggerFiles[i]];
      } else if Contains(rel, "data-plane") {
        dataSwagger := dataSwagger + [swaggerFiles[i]];
      }
    }
    assert swaggerFiles[..|swaggerFiles|] == swaggerFiles;
  }

  // ---------------------------------------------------------------------
  // TypeSpec projects: management plane versus data plane
  // ---------------------------------------------------------------------

  /** The projects whose management-plane test gives `management`, in order. */
  function ProjectsOfPlane(projects: seq<string>, management: bool): (r: seq<string>)
    ensures |r| <= |projects|
    ensures forall p :: p in r <==> p in projects && IsManagementPlane(p) == management
  {
    if projects == [] then []
    else
      var p := Last(projects);
      ProjectsOfPlane(projects[..|projects| - 1], management) + (if IsManagementPlane(p) == management then [p] else [])
  }

  /** Every project is counted once, in one of the two planes. */
  lemma {:induction false} ProjectsPartition(projects: seq<string>)
    ensures multiset(ProjectsOfPlane(projects, true)) + multiset(ProjectsOfPlane(projects, false)) == multiset(projects)
    decreases |projects|
  {
    if projects != [] {
      var init, p := projects[..|projects| - 1], Last(projects);
      assert projects == init + [p];
      ProjectsPartition(init);
      var m, d := ProjectsOfPlane(init, true), ProjectsOfPlane(init, false);
      assert multiset(projects) == multiset(init) + multiset{p};
      if IsManagementPlane(p) {
        assert ProjectsOfPlane(projects, true) == m + [p];
        assert ProjectsOfPlane(projects, false) == d;
      } else {
        assert ProjectsOfPlane(projects, true) == m;
        assert ProjectsOfPlane(projects, false) == d + [p];
      }
    }
  }

  method SplitTypeSpecProjects(typespecProjects: seq<string>)
    returns (mgmtProjects: seq<string>, dataProjects: seq<string>)
    ensures mgmtProjects == ProjectsOfPlane(typespecProjects, true)
    ensures dataProjects == ProjectsOfPlane(typespecProjects, false)
  {
    mgmtProjects, dataProjects := [], [];
    for i := 0 to |typespecProjects|
      invariant mgmtProjects == ProjectsOfPlane(typespecProjects[..i], true)
      invariant dataProjects == ProjectsOfPlane(typespecProjects[..i], false)
    {
      assert typespecProjects[..i + 1][..i] == typespecProjects[..i];
      if IsManagementPlane(typespecProjects[i]) {
        mgmtProjects := mgmtProjects + [typespecProjects[i]];
      } else {
        dataProjects := dataProjects + [typespecProjects[i]];
      }
    }
    assert typespecProjects[..|typespecProjects|] == typespecProjects;
  }

  // ---------------------------------------------------------------------
  // API-version uniformity of a readme's default-tag `input-file` list
  // ---------------------------------------------------------------------

  /** The parsed `input-file` value: a single string or a list of strings. */
  datatype InputFile = Single(path: string) | Many(paths: seq<string>)

  /** A single string is treated as a one-element list. */
  function Entries(inputFile: InputFile): seq<string> {
    match inputFile
    case Single(path) => [path]
    case Many(paths) => paths
  }

  /** The index of the first slash at or after `k`, or `|s|` if none. */
  function SlashFreeRunEnd(s: string, k: nat): (j: nat)
    requires k <= |s|
    ensures k <= j <= |s|
    ensures forall m :: k <= m < j ==> s[m] != '/'
    ensures j < |s| ==> s[j] == '/'
    decreases |s| - k
  {
    if k == |s| || s[k] == '/' then k else SlashFreeRunEnd(s, k + 1)
  }

  lemma PreviewIsNotStable(rest: string)
    requires StartsWith(rest, "preview/")
    ensures !StartsWith(rest, "stable/")
  {
    assert rest[0] == "preview/"[0];
  }

  /** A slash-free stretch from `k` up to a slash at `j` ends at `j`. */
  lemma {:induction false} SlashFreeRunEndAt(s: string, k: nat, j: nat)
    requires k <= j < |s| && s[j] == '/'
    requires forall m :: k <= m < j ==> s[m] != '/'
    ensures SlashFreeRunEnd(s, k) == j
    decreases j - k
  {
    if k < j {
      SlashFreeRunEndAt(s, k + 1, j);
    }
  }

  /** Group 2 of `/(stable|preview)/([^/]+)/` matched at index `i`: the
      greedy slash-free run after the keyword, which must be non-empty and
      followed by a slash. */
  function VersionMatchAt(s: string, i: nat): Option<string> {
    if i < |s| && s[i] == '/' then
      var rest := s[i + 1..];
      var start := if StartsWith(rest, "stable/") then i + 8
                   else if StartsWith(rest, "preview/") then i + 9
                   else 0;
      if start == 0 then None
      else
        var end := SlashFreeRunEnd(s, start);
        if start < end < |s| then Some(s[start..end]) else None
    else None
  }

  /** `re.search`: tries the start positions from `i` up to `n` in turn and
      returns the first match found. */
  function SearchFrom(matchAt: nat -> Option<string>, n: nat, i: nat): Option<string>
    decreases n - i
  {
    if i >= n then None
    else if matchAt(i).Some? then matchAt(i)
    else SearchFrom(matchAt, n, i + 1)
  }

  /** The version pattern tried at each position of `s`. */
  function VersionMatches(s: string): nat -> Option<string> {
    (k: nat) => VersionMatchAt(s, k)
  }

  /** Searching `s` for the version pattern from index `i` on. */
  function SearchVersionFrom(s: string, i: nat): Option<string> {
    SearchFrom(VersionMatches(s), |s|, i)
  }

  /** The API-version folder named by one `input-file` entry, if any. */
  function ApiVersionOf(inputFile: string): Option<string> {
    SearchVersionFrom(inputFile, 0)
  }

  /** `s` holds `/stable/v/` or `/preview/v/` at index `i`. */
  ghost predicate VersionPathAt(s: string, i: int, v: string) {
    OccursAt(s, VersionPath("stable/", v), i) || OccursAt(s, VersionPath("preview/", v), i)
  }

  /** `/kw` followed by `v/`. */
  function VersionPath(kw: string, v: string): string {
    "/" + kw + v + "/"
  }

  /** `/kw` followed by `v/` occurs at `i` exactly when the slash, the
      keyword, `v` and the closing slash each sit in their place. */
  lemma MatchPieces(s: string, i: nat, kw: string, v: string)
    requires i + |kw| + |v| + 2 <= |s|
    ensures OccursAt(s, VersionPath(kw, v), i) <==>
      s[i] == '/' && s[i + 1..i + 1 + |kw|] == kw
      && s[i + 1 + |kw|..i + 1 + |kw| + |v|] == v && s[i + 1 + |kw| + |v|] == '/'
  {
    var w := VersionPath(kw, v);
    var start := i + 1 + |kw|;
    var end := start + |v|;
    var slice := s[i..end + 1];
    assert slice == s[i..start] + s[start..end + 1];
    assert s[i..start] == [s[i]] + s[i + 1..start];
    assert s[start..end + 1] == s[start..end] + [s[end]];
    assert w[1..1 + |kw|] == kw && w[1 + |kw|..1 + |kw| + |v|] == v;
    if slice == w {
      assert s[i + 1..start] == slice[1..1 + |kw|];
      assert s[start..end] == slice[1 + |kw|..1 + |kw| + |v|];
    }
  }

  /** A match at `i` is an occurrence of `/stable/v/` or `/preview/v/`. */
  lemma VersionMatchAtSound(s: string, i: nat, v: string)
    requires VersionMatchAt(s, i) == Some(v)
    ensures v != "" && '/' !in v && VersionPathAt(s, i, v)
  {
    var stable := StartsWith(s[i + 1..], "stable/");
    var kw := if stable then "stable/" else "preview/";
    var start := i + 1 + |kw|;
    var end := SlashFreeRunEnd(s, start);
    assert v == s[start..end];
    assert s[i + 1..start] == kw by {
      assert s[i + 1..start] == s[i + 1..][..|kw|];
    }
    assert s[i] == '/' && s[end] == '/';
    MatchPieces(s, i, kw, v);
  }

  /** An occurrence of `/stable/v/` or `/preview/v/` at `i`, with `v`
      non-empty and slash-free, is a match at `i`. */
  lemma VersionMatchAtComplete(s: string, i: nat, v: string)
    requires v != "" && '/' !in v && VersionPathAt(s, i, v)
    ensures VersionMatchAt(s, i) == Some(v)
  {
    var stable := OccursAt(s, VersionPath("stable/", v), i);
    var kw := if stable then "stable/" else "preview/";
    var start := i + 1 + |kw|;
    assert OccursAt(s, VersionPath(kw, v), i);
    MatchPieces(s, i, kw, v);
    var rest := s[i + 1..];
    assert rest[..|kw|] == kw by {
      assert rest[..|kw|] == s[i + 1..start];
    }
    if !stable {
      PreviewIsNotStable(rest);
    }
    forall m | start <= m < start + |v| ensures s[m] != '/' {
      assert s[m] == v[m - start];
    }
    SlashFreeRunEndAt(s, start, start + |v|);
  }

  /** The pattern matches at `i` with group 2 equal to `v` exactly when `s`
      holds `/stable/v/` or `/preview/v/` there, with `v` non-empty and
      slash-free. */
  lemma VersionMatchAtIff(s: string, i: nat, v: string)
    ensures VersionMatchAt(s, i) == Some(v) <==> v != "" && '/' !in v && VersionPathAt(s, i, v)
  {
    if VersionMatchAt(s, i) == Some(v) {
      VersionMatchAtSound(s, i, v);
    }
    if v != "" && '/' !in v && VersionPathAt(s, i, v) {
      VersionMatchAtComplete(s, i, v);
    }
  }

  /** A search returns the match at the leftmost matching position. */
  lemma {:induction false} SearchFromLeftmost(matchAt: nat -> Option<string>, n: nat, i: nat, v: string)
    ensures SearchFrom(matchAt, n, i) == Some(v) <==>
      exists k :: i <= k < n && matchAt(k) == Some(v) && forall m :: i <= m < k ==> matchAt(m) == None
    decreases n - i
  {
    if i < n {
      SearchFromLeftmost(matchAt, n, i + 1, v);
      if matchAt(i).None? {
        if k :| (i + 1 <= k < n && matchAt(k) == Some(v) && forall m :: i + 1 <= m < k ==> matchAt(m) == None) {
          assert forall m :: i <= m < k ==> matchAt(m) == None;
        }
      } else {
        if k :| (i <= k < n && matchAt(k) == Some(v) && forall m :: i <= m < k ==> matchAt(m) == None) {
          assert k == i;
        }
      }
    }
  }

  /** The version search returns the match at the leftmost matching index
      from `i`. */
  lemma SearchVersionFromLeftmost(s: string, i: nat, v: string)
    ensures SearchVersionFrom(s, i) == Some(v) <==>
      exists k :: i <= k < |s| && VersionMatchAt(s, k) == Some(v)
        && forall m :: i <= m < k ==> VersionMatchAt(s, m) == None
  {
    var f := VersionMatches(s);
    SearchFromLeftmost(f, |s|, i, v);
    assert forall k: nat :: f(k) == VersionMatchAt(s, k);
  }

  /** No `/stable/w/` or `/preview/w/` with a non-empty slash-free `w` starts
      before index `k`. */
  ghost predicate NoVersionPathBefore(s: string, k: int) {
    forall m: nat, w: string :: m < k && w != "" && '/' !in w ==> !VersionPathAt(s, m, w)
  }

  /** The pattern fails at `m` exactly when no version path starts there. */
  lemma NoMatchAtIff(s: string, m: nat)
    ensures VersionMatchAt(s, m) == None <==>
      forall w: string :: w != "" && '/' !in w ==> !VersionPathAt(s, m, w)
  {
    if VersionMatchAt(s, m).Some? {
      VersionMatchAtSound(s, m, VersionMatchAt(s, m).value);
    } else {
      forall w: string | w != "" && '/' !in w ensures !VersionPathAt(s, m, w) {
        if VersionPathAt(s, m, w) {
          VersionMatchAtComplete(s, m, w);
        }
      }
    }
  }

  /** The version an `input-file` entry names is the non-empty slash-free
      segment after the leftmost `/stable/` or `/preview/` that is followed by
      such a segment and a slash. */
  lemma ApiVersionOfIff(e: string, v: string)
    ensures ApiVersionOf(e) == Some(v) <==>
      v != "" && '/' !in v && exists k: nat :: VersionPathAt(e, k, v) && NoVersionPathBefore(e, k)
  {
    SearchVersionFromLeftmost(e, 0, v);
    if ApiVersionOf(e) == Some(v) {
      var k :| 0 <= k < |e| && VersionMatchAt(e, k) == Some(v)
        && forall m :: 0 <= m < k ==> VersionMatchAt(e, m) == None;
      VersionMatchAtSound(e, k, v);
      forall m: nat, w: string | m < k && w != "" && '/' !in w ensures !VersionPathAt(e, m, w) {
        NoMatchAtIff(e, m);
      }
      assert VersionPathAt(e, k, v) && NoVersionPathBefore(e, k);
    }
    if v != "" && '/' !in v && exists k: nat :: VersionPathAt(e, k, v) && NoVersionPathBefore(e, k) {
      var k: nat :| VersionPathAt(e, k, v) && NoVersionPathBefore(e, k);
      VersionMatchAtComplete(e, k, v);
      forall m | 0 <= m < k ensures VersionMatchAt(e, m) == None {
        NoMatchAtIff(e, m);
      }
      assert k < |e|;
    }
  }

  /** The distinct API versions named by a list of `input-file` entries. */
  function ApiVersions(inputFiles: seq<string>): set<string> {
    if inputFiles == [] then {}
    else
      var e := Last(inputFiles);
      ApiVersions(inputFiles[..|inputFiles| - 1]) + (match ApiVersionOf(e) case Some(v) => {v} case None => {})
  }

  /** A version is collected exactly when some entry names it. */
  lemma {:induction false} ApiVersionsMembership(inputFiles: seq<string>)
    ensures forall v :: v in ApiVersions(inputFiles) <==> exists e :: e in inputFiles && ApiVersionOf(e) == Some(v)
    decreases |inputFiles|
  {
    if inputFiles != [] {
      var init := inputFiles[..|inputFiles| - 1];
      ApiVersionsMembership(init);
      assert inputFiles == init + [Last(inputFiles)];
    }
  }

  /** A readme mixes versions when more than one distinct version is named. */
  predicate HasMixedVersions(inputFiles: seq<string>) {
    |ApiVersions(inputFiles)| > 1
  }

  /** Mixing versions means two entries name two different versions. */
  lemma MixedVersionsIff(inputFiles: seq<string>)
    ensures HasMixedVersions(inputFiles) <==>
      exists e1, e2 :: e1 in inputFiles && e2 in inputFiles
        && ApiVersionOf(e1).Some? && ApiVersionOf(e2).Some? && ApiVersionOf(e1) != ApiVersionOf(e2)
  {
    if HasMixedVersions(inputFiles) {
      var e1, e2 := MixedVersionsWitness(inputFiles);
    }
    if e1, e2 :| (e1 in inputFiles && e2 in inputFiles
                  && ApiVersionOf(e1).Some? && ApiVersionOf(e2).Some? && ApiVersionOf(e1) != ApiVersionOf(e2)) {
      TwoVersionsMixed(inputFiles, e1, e2);
    }
  }

  lemma MixedVersionsWitness(inputFiles: seq<string>) returns (e1: string, e2: string)
    requires HasMixedVersions(inputFiles)
    ensures e1 in inputFiles && e2 in inputFiles
    ensures ApiVersionOf(e1).Some? && ApiVersionOf(e2).Some? && ApiVersionOf(e1) != ApiVersionOf(e2)
  {
    var versions := ApiVersions(inputFiles);
    ApiVersionsMembership(inputFiles);
    var a :| a in versions;
    assert |versions - {a}| == |versions| - 1;
    var b :| b in versions - {a};
    e1 :| e1 in inputFiles && ApiVersionOf(e1) == Some(a);
    e2 :| e2 in inputFiles && ApiVersionOf(e2) == Some(b);
  }

  lemma TwoVersionsMixed(inputFiles: seq<string>, e1: string, e2: string)
    requires e1 in inputFiles && e2 in inputFiles
    requires ApiVersionOf(e1).Some? && ApiVersionOf(e2).Some? && ApiVersionOf(e1) != ApiVersionOf(e2)
    ensures HasMixedVersions(inputFiles)
  {
    var versions := ApiVersions(inputFiles);
    ApiVersionsMembership(inputFiles);
    var a, b := ApiVersionOf(e1).value, ApiVersionOf(e2).value;
    assert {a, b} <= versions;
    assert |{a, b}| == 2;
    SubsetCardinality({a, b}, versions);
  }

  lemma SubsetCardinality<T>(a: set<T>, b: set<T>)
    requires a <= b
    ensures |a| <= |b|
  {
    assert b == a + (b - a);
  }

  method CollectApiVersions(inputFiles: seq<string>) returns (apiVersions: set<string>)
    ensures apiVersions == ApiVersions(inputFiles)
  {
    apiVersions := {};
    for i := 0 to |inputFiles|
      invariant apiVersions == ApiVersions(inputFiles[..i])
    {
      assert inputFiles[..i + 1][..i] == inputFiles[..i];
      var versionMatch := SearchVersionFrom(inputFiles[i], 0);
      if versionMatch.Some? {
        apiVersions := apiVersions + {versionMatch.value};
      }
    }
    assert inputFiles[..|inputFiles|] == inputFiles;
  }

  /** A readme under `resource-manager`: its path relative to the
      organisation folder and, when its default tag's YAML block was found
      and parsed to a mapping, that mapping's `input-file` value (an absent
      key is the empty list). */
  datatype Readme = Readme(relPath: string, inputFile: Option<InputFile>)

  predicate IsProblematic(readme: Readme) {
    readme.inputFile.Some? && HasMixedVersions(Entries(readme.inputFile.value))
  }

  /** The paths of the readmes that mix API versions, in readme order. */
  function ProblematicReadmes(readmes: seq<Readme>): seq<string> {
    if readmes == [] then []
    else
      var readme := Last(readmes);
      ProblematicReadmes(readmes[..|readmes| - 1]) + (if IsProblematic(readme) then [readme.relPath] else [])
  }

  /** A path is reported exactly when some readme at that path mixes versions. */
  lemma {:induction false} ProblematicReadmesMembership(readmes: seq<Readme>)
    ensures forall p :: p in ProblematicReadmes(readmes) <==>
      exists readme :: readme in readmes && readme.relPath == p && IsProblematic(readme)
    decreases |readmes|
  {
    if readmes != [] {
      var init := readmes[..|readmes| - 1];
      ProblematicReadmesMembership(init);
      assert readmes == init + [Last(readmes)];
    }
  }

  method CheckVersionUniformIssues(readmes: seq<Readme>)
    returns (hasVersionUniformIssue: bool, problematicReadmes: seq<string>)
    ensures problematicReadmes == ProblematicReadmes(readmes)
    ensures hasVersionUniformIssue <==> exists readme :: readme in readmes && IsProblematic(readme)
  {
    hasVersionUniformIssue, problematicReadmes := false, [];
    for i := 0 to |readmes|
      invariant problematicReadmes == ProblematicReadmes(readmes[..i])
      invariant hasVersionUniformIssue <==> problematicReadmes != []
    {
      assert readmes[..i + 1][..i] == readmes[..i];
      if readmes[i].inputFile.Some? {
        var inputFiles := Entries(readmes[i].inputFile.value);
        var apiVersions := CollectApiVersions(inputFiles);
        assert IsProblematic(readmes[i]) <==> |apiVersions| > 1;
        if |apiVersions| > 1 {
          hasVersionUniformIssue := true;
          problematicReadmes := problematicReadmes + [readmes[i].relPath];
        }
      }
    }
    assert readmes[..|readmes|] == readmes;
    ProblematicReadmesMembership(readmes);
    if hasVersionUniformIssue {
      assert problematicReadmes[0] in problematicReadmes;
    }
    forall readme | readme in readmes && IsProblematic(readme) ensures problematicReadmes != [] {
      assert readme.relPath in problematicReadmes;
    }
  }

  // ---------------------------------------------------------------------
  // Folder compliance of one organisation
  // ---------------------------------------------------------------------

  /** A folder to judge: its path relative to the specification directory
      and whether it holds a `tspconfig.yaml` or a `main.tsp`. */
  datatype Folder = Folder(relPath: string, hasTypeSpec: bool)

  /** The verdict of the compliance check on each folder, for a given
      `specification` directory. */
  function Judge(base: string): Folder -> Verdict {
    (folder: Folder) => CheckFolderStructureV2(base, folder.relPath, folder.hasTypeSpec)
  }

  /** The folders `judge` finds compliant, in order. */
  function CompliantFolders(folders: seq<Folder>, judge: Folder -> Verdict): seq<Folder>
  {
    if folders == [] then []
    else
      var f := Last(folders);
      CompliantFolders(folders[..|folders| - 1], judge) + (if judge(f).compliant then [f] else [])
  }

  /** The folders `judge` finds non-compliant, with the reason, in order. */
  function NonCompliantFolders(folders: seq<Folder>, judge: Folder -> Verdict): seq<(Folder, Reason)>
  {
    if folders == [] then []
    else
      var f := Last(folders);
      var v := judge(f);
      NonCompliantFolders(folders[..|folders| - 1], judge) + (if v.compliant then [] else [(f, v.reason)])
  }

  /** A folder is listed as compliant exactly when it is judged compliant. */
  lemma {:induction false} CompliantFoldersMembership(folders: seq<Folder>, judge: Folder -> Verdict)
    ensures forall f :: f in CompliantFolders(folders, judge) <==> f in folders && judge(f).compliant
    decreases |folders|
  {
    if folders != [] {
      var init := folders[..|folders| - 1];
      CompliantFoldersMembership(init, judge);
      assert folders == init + [Last(folders)];
    }
  }

  /** A folder is listed as non-compliant, with the reason it was given,
      exactly when it is judged non-compliant. */
  lemma {:induction false} NonCompliantFoldersMembership(folders: seq<Folder>, judge: Folder -> Verdict)
    ensures forall p :: p in NonCompliantFolders(folders, judge) <==>
      p.0 in folders && !judge(p.0).compliant && p.1 == judge(p.0).reason
    decreases |folders|
  {
    if folders != [] {
      var init := folders[..|folders| - 1];
      NonCompliantFoldersMembership(init, judge);
      assert folders == init + [Last(folders)];
    }
  }

  /** The folders of a list of (folder, reason) pairs, in order. */
  function Firsts(pairs: seq<(Folder, Reason)>): seq<Folder> {
    if pairs == [] then [] else Firsts(pairs[..|pairs| - 1]) + [Last(pairs).0]
  }

  /** Judging a list with one more folder at its end. */
  lemma FoldersSnoc(init: seq<Folder>, f: Folder, judge: Folder -> Verdict)
    ensures CompliantFolders(init + [f], judge)
      == CompliantFolders(init, judge) + (if judge(f).compliant then [f] else [])
    ensures NonCompliantFolders(init + [f], judge)
      == NonCompliantFolders(init, judge) + (if judge(f).compliant then [] else [(f, judge(f).reason)])
  {
    assert (init + [f])[..|init|] == init;
  }

  lemma FirstsSnoc(pairs: seq<(Folder, Reason)>, p: (Folder, Reason))
    ensures Firsts(pairs + [p]) == Firsts(pairs) + [p.0]
  {
    assert (pairs + [p])[..|pairs|] == pairs;
  }

  /** Splitting loses no folder and counts none twice. */
  lemma {:induction false} FolderPartition(folders: seq<Folder>, judge: Folder -> Verdict)
    ensures multiset(CompliantFolders(folders, judge)) + multiset(Firsts(NonCompliantFolders(folders, judge)))
      == multiset(folders)
    decreases |folders|
  {
    if folders != [] {
      var init, f := folders[..|folders| - 1], Last(folders);
      assert folders == init + [f];
      var v := judge(f);
      var c0, n0 := CompliantFolders(init, judge), NonCompliantFolders(init, judge);
      FolderPartition(init, judge);
      FoldersSnoc(init, f, judge);
      assert multiset(folders) == multiset(init) + multiset{f};
      if v.compliant {
        assert multiset(CompliantFolders(folders, judge)) == multiset(c0) + multiset{f};
        assert NonCompliantFolders(folders, judge) == n0;
      } else {
        FirstsSnoc(n0, (f, v.reason));
        assert CompliantFolders(folders, judge) == c0;
        assert multiset(Firsts(NonCompliantFolders(folders, judge))) == multiset(Firsts(n0)) + multiset{f};
      }
    }
  }

  method PartitionFolders(base: string, allFolders: seq<Folder>)
    returns (compliantFolders: seq<Folder>, nonCompliantFolders: seq<(Folder, Reason)>)
    ensures compliantFolders == CompliantFolders(allFolders, Judge(base))
    ensures nonCompliantFolders == NonCompliantFolders(allFolders, Judge(base))
  {
    compliantFolders, nonCompliantFolders := [], [];
    for i := 0 to |allFolders|
      invariant compliantFolders == CompliantFolders(allFolders[..i], Judge(base))
      invariant nonCompliantFolders == NonCompliantFolders(allFolders[..i], Judge(base))
    {
      assert allFolders[..i + 1][..i] == allFolders[..i];
      var isCompliant, reason := CheckFolderStructureV2(base, allFolders[i].relPath, allFolders[i].hasTypeSpec).compliant,
                                 CheckFolderStructureV2(base, allFolders[i].relPath, allFolders[i].hasTypeSpec).reason;
      assert Judge(base)(allFolders[i]) == Verdict(isCompliant, reason);
      if isCompliant {
        compliantFolders := compliantFolders + [allFolders[i]];
      } else {
        nonCompliantFolders := nonCompliantFolders + [(allFolders[i], reason)];
      }
    }
    assert allFolders[..|allFolders|] == allFolders;
  }

  /** `org_is_fully_compliant`. */
  predicate OrgIsFullyCompliant(nonCompliantFolders: seq<(Folder, Reason)>, allFolders: seq<Folder>) {
    |nonCompliantFolders| == 0 && |allFolders| > 0
  }

  /** An organisation is fully compliant exactly when it has at least one
      folder and every folder is compliant. */
  lemma FullyCompliantIff(allFolders: seq<Folder>, judge: Folder -> Verdict)
    ensures OrgIsFullyCompliant(NonCompliantFolders(allFolders, judge), allFolders) <==>
      |allFolders| > 0 && forall f :: f in allFolders ==> judge(f).compliant
  {
    var nc := NonCompliantFolders(allFolders, judge);
    NonCompliantFoldersMembership(allFolders, judge);
    if nc != [] {
      assert nc[0] in nc;
    }
    if f :| f in allFolders && !judge(f).compliant {
      assert (f, judge(f).reason) in nc;
    }
  }
}

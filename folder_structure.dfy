/** The "folder structure v2" classifier: the path predicates and the strict
    compliance verdict for one folder under the `specification` directory. */
module FolderStructure {
  import opened Strings
  import opened Paths

  /** A TypeSpec project or Swagger file is management plane when its last
      path component mentions `.Management` or its path mentions
      `resource-manager`; everything else is data plane. */
  predicate IsManagementPlane(path: string) {
    Contains(Basename(path), ".Management") || Contains(path, "resource-manager")
  }

  lemma ManagementPlaneIff(path: string)
    ensures IsManagementPlane(path) <==>
      (exists i :: OccursAt(Basename(path), ".Management", i)) || (exists i :: OccursAt(path, "resource-manager", i))
  {
    ContainsIff(Basename(path), ".Management");
    ContainsIff(path, "resource-manager");
  }

  /** Non-empty, starts with an upper-case letter, and holds only letters,
      digits and dots. */
  predicate IsPascalCase(s: string) {
    |s| > 0 && IsUpper(s[0]) && forall i :: 0 <= i < |s| ==> IsAlnum(s[i]) || s[i] == '.'
  }

  /** `A.B` where `A` and `B` are PascalCase. */
  predicate IsValidNamespacePattern(namespace: string) {
    if '.' !in namespace then false
    else
      var parts := Split(namespace, '.');
      if |parts| != 2 then false
      else forall part :: part in parts ==> IsPascalCase(part) && '.' !in part
  }

  /** Only letters, digits and hyphens; the empty name passes. */
  predicate IsValidServiceName(serviceName: string) {
    forall i :: 0 <= i < |serviceName| ==> IsAlnum(serviceName[i]) || serviceName[i] == '-'
  }

  /** The empty name and hyphenated names pass; a dot or a slash fails. */
  lemma ServiceNameExamples()
    ensures IsValidServiceName("")
    ensures IsValidServiceName("Key-Vault2")
    ensures !IsValidServiceName("Foo.Bar")
    ensures !IsValidServiceName("a/b")
  {
    assert "Foo.Bar"[3] == '.';
    assert "a/b"[1] == '/';
  }

  /** An identifier that starts upper-case and is alphanumeric throughout. */
  ghost predicate IsPascalIdentifier(s: string) {
    |s| > 0 && IsUpper(s[0]) && forall i :: 0 <= i < |s| ==> IsAlnum(s[i])
  }

  /** `namespace` is two PascalCase identifiers joined by the dot at `i`. */
  ghost predicate IsDotJoinedPairAt(namespace: string, i: int) {
    0 <= i < |namespace| && namespace[i] == '.'
    && IsPascalIdentifier(namespace[..i]) && IsPascalIdentifier(namespace[i + 1..])
  }

  /** The namespace check accepts exactly the strings with a single dot whose
      two sides are non-empty alphanumeric identifiers starting upper-case. */
  lemma NamespacePatternIff(namespace: string)
    ensures IsValidNamespacePattern(namespace) <==> exists i :: IsDotJoinedPairAt(namespace, i)
  {
    if IsValidNamespacePattern(namespace) {
      NamespacePatternSound(namespace);
    }
    if i :| IsDotJoinedPairAt(namespace, i) {
      NamespacePatternComplete(namespace, i);
    }
  }

  lemma NamespacePatternSound(namespace: string)
    requires IsValidNamespacePattern(namespace)
    ensures IsDotJoinedPairAt(namespace, |Split(namespace, '.')[0]|)
  {
    var parts := Split(namespace, '.');
    var i := |parts[0]|;
    assert parts[1..] == [parts[1]];
    assert Join(parts, '.') == parts[0] + ['.'] + Join(parts[1..], '.');
    assert namespace == parts[0] + "." + parts[1];
    assert namespace[..i] == parts[0] && namespace[i + 1..] == parts[1];
    assert parts[0] in parts && parts[1] in parts;
  }

  lemma NamespacePatternComplete(namespace: string, i: int)
    requires IsDotJoinedPairAt(namespace, i)
    ensures IsValidNamespacePattern(namespace)
  {
    var a, b := namespace[..i], namespace[i + 1..];
    assert '.' !in a && '.' !in b by {
      assert !IsAlnum('.');
    }
    assert [a, b][1..] == [b];
    assert namespace == a + "." + b;
    assert namespace == Join([a, b], '.');
    SplitJoin([a, b], '.');
    assert namespace[i] == '.';
  }

  /** `Microsoft.Compute` has the namespace shape. */
  lemma NamespacePatternAccepts()
    ensures IsValidNamespacePattern("Microsoft.Compute")
  {
    var ns := "Microsoft.Compute";
    assert ns[..9] == "Microsoft" && ns[10..] == "Compute";
    assert IsDotJoinedPairAt(ns, 9);
    NamespacePatternIff(ns);
  }

  /** A doubled dot, a missing right-hand side and a missing dot all fail. */
  lemma NamespacePatternRejects()
    ensures !IsValidNamespacePattern("A..B")
    ensures !IsValidNamespacePattern("A.")
    ensures !IsValidNamespacePattern("AB")
  {
    var doubled, trailing := "A..B", "A.";
    forall i ensures !IsDotJoinedPairAt(doubled, i) {
      if i == 1 {
        assert doubled[2..][0] == '.';
      } else if i == 2 {
        assert doubled[..2][1] == '.';
      }
    }
    NamespacePatternIff(doubled);
    forall i ensures !IsDotJoinedPairAt(trailing, i) {
      if i == 1 {
        assert trailing[2..] == "";
      }
    }
    NamespacePatternIff(trailing);
    assert '.' !in "AB";
  }

  /** The name of a Swagger version folder, compared case-insensitively. */
  predicate IsStableOrPreview(folderName: string) {
    Lower(folderName) == "stable" || Lower(folderName) == "preview"
  }

  /** Why a folder is (non-)compliant; one tag per outcome of the decision. */
  datatype Reason =
    | PathTooShort
    | SharedFolder
    | BadNamespace
    | BadServiceName
    | ManagementTypeSpecRoot
    | BadManagementTypeSpecLayout
    | DataPlaneTypeSpecRoot
    | BadDataPlaneTypeSpecLayout
    | ManagementVersionFolder
    | BadManagementVersionLayout
    | DataPlaneVersionFolder
    | BadDataPlaneVersionLayout
    | VersionFolderOutsidePlanes
    | NotProjectOrVersionFolder
  {
    predicate IsCompliant() {
      SharedFolder? || ManagementTypeSpecRoot? || DataPlaneTypeSpecRoot?
      || ManagementVersionFolder? || DataPlaneVersionFolder?
    }
  }

  datatype Verdict = Verdict(compliant: bool, reason: Reason)

  /** `rel_path.split(os.sep)`. */
  function Segments(relPath: string): seq<string> {
    Split(relPath, '/')
  }

  /** `{org}/resource-manager/{Namespace}/{service}` */
  ghost predicate IsManagementRootShape(parts: seq<string>) {
    |parts| == 4 && parts[1] == "resource-manager"
    && IsValidNamespacePattern(parts[2]) && IsValidServiceName(parts[3])
  }

  /** `{org}/data-plane/{service}` */
  ghost predicate IsDataPlaneRootShape(parts: seq<string>) {
    |parts| == 3 && parts[1] == "data-plane" && IsValidServiceName(parts[2])
  }

  /** `{org}/resource-manager/{Namespace}/{service}/stable|preview` */
  ghost predicate IsManagementVersionShape(parts: seq<string>) {
    |parts| == 5 && parts[1] == "resource-manager"
    && IsValidNamespacePattern(parts[2]) && IsValidServiceName(parts[3])
    && IsStableOrPreview(parts[4])
  }

  /** `{org}/data-plane/{service}/stable|preview` */
  ghost predicate IsDataPlaneVersionShape(parts: seq<string>) {
    |parts| == 4 && parts[1] == "data-plane" && IsValidServiceName(parts[2])
    && IsStableOrPreview(parts[3])
  }

  /** The strict v2 layout, stated as the shapes a compliant folder can take:
      a `common-types` folder, a TypeSpec project root in its plane's single
      allowed place, or a Swagger `stable`/`preview` folder in its plane's
      single allowed place. */
  ghost predicate IsCompliantLayout(base: string, relPath: string, hasTypeSpec: bool) {
    var parts := Segments(relPath);
    var management := IsManagementPlane(JoinPath(base, relPath));
    |parts| >= 2 &&
    (parts[0] == "common-types"
     || (hasTypeSpec && management && IsManagementRootShape(parts))
     || (hasTypeSpec && !management && IsDataPlaneRootShape(parts))
     || (!hasTypeSpec && Contains(relPath, "resource-manager") && IsManagementVersionShape(parts))
     || (!hasTypeSpec && !Contains(relPath, "resource-manager") && Contains(relPath, "data-plane")
         && IsDataPlaneVersionShape(parts)))
  }

  /** The TypeSpec branch: a project root must sit in its plane's single
      allowed place. */
  function TypeSpecVerdict(parts: seq<string>, management: bool): (v: Verdict)
    requires |parts| >= 2
    ensures v.compliant <==> v.reason.IsCompliant()
    ensures v.compliant <==> (management && IsManagementRootShape(parts))
                             || (!management && IsDataPlaneRootShape(parts))
  {
    if management then
      if |parts| == 4 && parts[1] == "resource-manager" then
        if !IsValidNamespacePattern(parts[2]) then Verdict(false, BadNamespace)
        else if !IsValidServiceName(parts[3]) then Verdict(false, BadServiceName)
        else Verdict(true, ManagementTypeSpecRoot)
      else Verdict(false, BadManagementTypeSpecLayout)
    else
      if |parts| == 3 && parts[1] == "data-plane" then
        if !IsValidServiceName(parts[2]) then Verdict(false, BadServiceName)
        else Verdict(true, DataPlaneTypeSpecRoot)
      else Verdict(false, BadDataPlaneTypeSpecLayout)
  }

  /** A `stable`/`preview` folder named `folderName` on a path mentioning
      `resource-manager`. */
  function ManagementVersionVerdict(parts: seq<string>, folderName: string): (v: Verdict)
    requires |parts| >= 2 && folderName == Last(parts) && IsStableOrPreview(folderName)
    ensures v.compliant <==> v.reason.IsCompliant()
    ensures v.compliant <==> IsManagementVersionShape(parts)
  {
    if |parts| == 5 && parts[1] == "resource-manager" && parts[4] == folderName then
      if !IsValidNamespacePattern(parts[2]) then Verdict(false, BadNamespace)
      else if !IsValidServiceName(parts[3]) then Verdict(false, BadServiceName)
      else Verdict(true, ManagementVersionFolder)
    else Verdict(false, BadManagementVersionLayout)
  }

  /** A `stable`/`preview` folder named `folderName` on a path mentioning
      `data-plane` but not `resource-manager`. */
  function DataPlaneVersionVerdict(parts: seq<string>, folderName: string): (v: Verdict)
    requires |parts| >= 2 && folderName == Last(parts) && IsStableOrPreview(folderName)
    ensures v.compliant <==> v.reason.IsCompliant()
    ensures v.compliant <==> IsDataPlaneVersionShape(parts)
  {
    if |parts| == 4 && parts[1] == "data-plane" && parts[3] == folderName then
      if !IsValidServiceName(parts[2]) then Verdict(false, BadServiceName)
      else Verdict(true, DataPlaneVersionFolder)
    else Verdict(false, BadDataPlaneVersionLayout)
  }

  /** The Swagger branch for a `stable`/`preview` folder named `folderName`:
      it must sit one level below a service folder of the plane its
      relative path mentions, `resource-manager` taking precedence. */
  function VersionVerdict(relPath: string, parts: seq<string>, folderName: string): (v: Verdict)
    requires |parts| >= 2 && folderName == Last(parts) && IsStableOrPreview(folderName)
    ensures v.compliant <==> v.reason.IsCompliant()
    ensures v.compliant <==>
      (Contains(relPath, "resource-manager") && IsManagementVersionShape(parts))
      || (!Contains(relPath, "resource-manager") && Contains(relPath, "data-plane")
          && IsDataPlaneVersionShape(parts))
  {
    if Contains(relPath, "resource-manager") then ManagementVersionVerdict(parts, folderName)
    else if Contains(relPath, "data-plane") then DataPlaneVersionVerdict(parts, folderName)
    else Verdict(false, VersionFolderOutsidePlanes)
  }

  /** The verdict for the folder `JoinPath(base, relPath)`, where `base` is the
      `specification` directory and `hasTypeSpec` says whether the folder
      holds a `tspconfig.yaml` or a `main.tsp`. */
  function CheckFolderStructureV2(base: string, relPath: string, hasTypeSpec: bool): (v: Verdict)
    ensures v.compliant <==> v.reason.IsCompliant()
    ensures v.compliant <==> IsCompliantLayout(base, relPath, hasTypeSpec)
  {
    var parts := Segments(relPath);
    if |parts| < 2 then Verdict(false, PathTooShort)
    else if parts[0] == "common-types" then Verdict(true, SharedFolder)
    else
      var folderPath := JoinPath(base, relPath);
      var folderName := Basename(folderPath);
      BasenameOfJoinPath(base, relPath);
      if hasTypeSpec then TypeSpecVerdict(parts, IsManagementPlane(folderPath))
      else if IsStableOrPreview(folderName) then VersionVerdict(relPath, parts, folderName)
      else
        assert !IsManagementVersionShape(parts) && !IsDataPlaneVersionShape(parts);
        Verdict(false, NotProjectOrVersionFolder)
  }

  /** Which tag a TypeSpec folder gets: the layout is checked first, then the
      namespace, then the service name. */
  lemma TypeSpecReasons(parts: seq<string>, management: bool)
    requires |parts| >= 2
    ensures management && !(|parts| == 4 && parts[1] == "resource-manager")
      ==> TypeSpecVerdict(parts, management) == Verdict(false, BadManagementTypeSpecLayout)
    ensures management && |parts| == 4 && parts[1] == "resource-manager" && !IsValidNamespacePattern(parts[2])
      ==> TypeSpecVerdict(parts, management) == Verdict(false, BadNamespace)
    ensures management && |parts| == 4 && parts[1] == "resource-manager" && IsValidNamespacePattern(parts[2])
      && !IsValidServiceName(parts[3])
      ==> TypeSpecVerdict(parts, management) == Verdict(false, BadServiceName)
    ensures management && IsManagementRootShape(parts)
      ==> TypeSpecVerdict(parts, management) == Verdict(true, ManagementTypeSpecRoot)
    ensures !management && !(|parts| == 3 && parts[1] == "data-plane")
      ==> TypeSpecVerdict(parts, management) == Verdict(false, BadDataPlaneTypeSpecLayout)
    ensures !management && |parts| == 3 && parts[1] == "data-plane" && !IsValidServiceName(parts[2])
      ==> TypeSpecVerdict(parts, management) == Verdict(false, BadServiceName)
    ensures !management && IsDataPlaneRootShape(parts)
      ==> TypeSpecVerdict(parts, management) == Verdict(true, DataPlaneTypeSpecRoot)
  {
  }

  /** Which tag a `stable`/`preview` folder on a `resource-manager` path gets:
      layout first, then namespace, then service name. */
  lemma ManagementVersionReasons(parts: seq<string>, folderName: string)
    requires |parts| >= 2 && folderName == Last(parts) && IsStableOrPreview(folderName)
    ensures !(|parts| == 5 && parts[1] == "resource-manager")
      ==> ManagementVersionVerdict(parts, folderName) == Verdict(false, BadManagementVersionLayout)
    ensures |parts| == 5 && parts[1] == "resource-manager" && !IsValidNamespacePattern(parts[2])
      ==> ManagementVersionVerdict(parts, folderName) == Verdict(false, BadNamespace)
    ensures |parts| == 5 && parts[1] == "resource-manager" && IsValidNamespacePattern(parts[2])
      && !IsValidServiceName(parts[3])
      ==> ManagementVersionVerdict(parts, folderName) == Verdict(false, BadServiceName)
    ensures IsManagementVersionShape(parts)
      ==> ManagementVersionVerdict(parts, folderName) == Verdict(true, ManagementVersionFolder)
  {
  }

  /** Which tag a `stable`/`preview` folder on a `data-plane` path gets:
      layout first, then service name. */
  lemma DataPlaneVersionReasons(parts: seq<string>, folderName: string)
    requires |parts| >= 2 && folderName == Last(parts) && IsStableOrPreview(folderName)
    ensures !(|parts| == 4 && parts[1] == "data-plane")
      ==> DataPlaneVersionVerdict(parts, folderName) == Verdict(false, BadDataPlaneVersionLayout)
    ensures |parts| == 4 && parts[1] == "data-plane" && !IsValidServiceName(parts[2])
      ==> DataPlaneVersionVerdict(parts, folderName) == Verdict(false, BadServiceName)
    ensures IsDataPlaneVersionShape(parts)
      ==> DataPlaneVersionVerdict(parts, folderName) == Verdict(true, DataPlaneVersionFolder)
  {
  }

  /** A `stable`/`preview` folder is judged by the management rule whenever
      its path mentions `resource-manager`, by the data-plane rule when it
      mentions only `data-plane`, and is rejected when it mentions neither. */
  lemma VersionReasons(relPath: string, parts: seq<string>, folderName: string)
    requires |parts| >= 2 && folderName == Last(parts) && IsStableOrPreview(folderName)
    ensures Contains(relPath, "resource-manager")
      ==> VersionVerdict(relPath, parts, folderName) == ManagementVersionVerdict(parts, folderName)
    ensures !Contains(relPath, "resource-manager") && Contains(relPath, "data-plane")
      ==> VersionVerdict(relPath, parts, folderName) == DataPlaneVersionVerdict(parts, folderName)
    ensures !Contains(relPath, "resource-manager") && !Contains(relPath, "data-plane")
      ==> VersionVerdict(relPath, parts, folderName) == Verdict(false, VersionFolderOutsidePlanes)
  {
  }

  /** Past the two early exits, a TypeSpec folder is judged by the TypeSpec
      rule on its full path's plane, and any other folder whose last segment
      is `stable`/`preview` by the version rule. */
  lemma CheckFolderStructureV2Reasons(base: string, relPath: string, hasTypeSpec: bool)
    requires |Segments(relPath)| >= 2 && Segments(relPath)[0] != "common-types"
    ensures hasTypeSpec ==>
      CheckFolderStructureV2(base, relPath, hasTypeSpec)
      == TypeSpecVerdict(Segments(relPath), IsManagementPlane(JoinPath(base, relPath)))
    ensures !hasTypeSpec && IsStableOrPreview(Last(Segments(relPath))) ==>
      CheckFolderStructureV2(base, relPath, hasTypeSpec)
      == VersionVerdict(relPath, Segments(relPath), Last(Segments(relPath)))
  {
    BasenameOfJoinPath(base, relPath);
  }

  /** Fewer than two segments is rejected before anything else is looked at. */
  lemma ShortPathRejectedFirst(base: string, relPath: string, hasTypeSpec: bool)
    requires |Segments(relPath)| < 2
    ensures CheckFolderStructureV2(base, relPath, hasTypeSpec) == Verdict(false, PathTooShort)
  {
  }

  /** A `common-types` folder is compliant whatever else holds. */
  lemma CommonTypesAlwaysCompliant(base: string, relPath: string, hasTypeSpec: bool)
    requires |Segments(relPath)| >= 2 && Segments(relPath)[0] == "common-types"
    ensures CheckFolderStructureV2(base, relPath, hasTypeSpec) == Verdict(true, SharedFolder)
  {
  }

  /** A TypeSpec folder is judged by the TypeSpec rule even when it is named
      `stable` or `preview`: such a folder at the Swagger version depth of its
      plane is not compliant. */
  lemma TypeSpecRuleTakesPrecedence(base: string, relPath: string)
    requires |Segments(relPath)| >= 2 && Segments(relPath)[0] != "common-types"
    ensures var v := CheckFolderStructureV2(base, relPath, true);
      !v.reason.ManagementVersionFolder? && !v.reason.DataPlaneVersionFolder?
      && !v.reason.BadManagementVersionLayout? && !v.reason.BadDataPlaneVersionLayout?
      && !v.reason.VersionFolderOutsidePlanes? && !v.reason.NotProjectOrVersionFolder?
    ensures |Segments(relPath)| == 5 ==> !CheckFolderStructureV2(base, relPath, true).compliant
  {
  }

  /** A folder without TypeSpec sources whose last segment is not
      `stable`/`preview` (in any letter case) is never compliant unless it
      is under `common-types`. */
  lemma OtherFoldersNotCompliant(base: string, relPath: string)
    requires |Segments(relPath)| >= 2 && Segments(relPath)[0] != "common-types"
    requires !IsStableOrPreview(Last(Segments(relPath)))
    ensures CheckFolderStructureV2(base, relPath, false) == Verdict(false, NotProjectOrVersionFolder)
  {
    BasenameOfJoinPath(base, relPath);
  }

  /** A Swagger version folder must sit in the plane named by its own path:
      with `resource-manager` anywhere in the relative path it is judged only by
      the five-segment management rule, even if `data-plane` appears too. */
  lemma ManagementVersionRuleFirst(base: string, relPath: string)
    requires |Segments(relPath)| >= 2 && Segments(relPath)[0] != "common-types"
    requires Contains(relPath, "resource-manager") && Contains(relPath, "data-plane")
    ensures CheckFolderStructureV2(base, relPath, false).compliant ==> |Segments(relPath)| == 5
  {
  }

  /** A valid namespace holds no slash. */
  lemma NamespaceHasNoSlash(namespace: string)
    requires IsValidNamespacePattern(namespace)
    ensures '/' !in namespace
  {
    NamespacePatternIff(namespace);
    var i :| IsDotJoinedPairAt(namespace, i);
    var a, b := namespace[..i], namespace[i + 1..];
    assert namespace == a + "." + b;
    assert '/' !in a && '/' !in b by {
      assert !IsAlnum('/');
    }
  }

  /** Joining slash-free segments whose second is `resource-manager` gives a
      relative path that splits back into them and mentions
      `resource-manager`. */
  lemma ManagementSegments(parts: seq<string>)
    requires |parts| >= 2 && parts[1] == "resource-manager"
    requires forall k :: 0 <= k < |parts| ==> '/' !in parts[k]
    ensures Segments(Join(parts, '/')) == parts
    ensures Contains(Join(parts, '/'), "resource-manager")
  {
    SplitJoin(parts, '/');
    MentionsResourceManager(parts);
  }

  /** A join of segments whose second is `resource-manager` mentions it. */
  lemma MentionsResourceManager(parts: seq<string>)
    requires |parts| >= 2 && parts[1] == "resource-manager"
    ensures Contains(Join(parts, '/'), "resource-manager")
  {
    var rel := Join(parts, '/');
    var x := Join(parts[1..], '/');
    assert rel == parts[0] + "/" + x;
    assert x[..16] == "resource-manager" by {
      if |parts| > 2 {
        assert x == parts[1] + "/" + Join(parts[1..][1..], '/');
      }
    }
    assert rel[|parts[0]| + 1..|parts[0]| + 17] == x[..16];
    assert OccursAt(rel, "resource-manager", |parts[0]| + 1);
    ContainsIff(rel, "resource-manager");
  }

  /** A TypeSpec project at `org/resource-manager/Namespace/service` with a
      valid namespace and service name is a compliant management root. */
  lemma ManagementTypeSpecRootCompliant(base: string, org: string, namespace: string, service: string)
    requires '/' !in org && org != "common-types"
    requires IsValidNamespacePattern(namespace) && IsValidServiceName(service)
    ensures CheckFolderStructureV2(base, Join([org, "resource-manager", namespace, service], '/'), true)
      == Verdict(true, ManagementTypeSpecRoot)
  {
    NamespaceHasNoSlash(namespace);
    assert '/' !in service by { assert !IsAlnum('/'); }
    ManagementSegments([org, "resource-manager", namespace, service]);
    ManagementPlaneFromRelative(base, Join([org, "resource-manager", namespace, service], '/'));
  }

  /** A TypeSpec project at `org/resource-manager/Namespace/service` with an
      invalid namespace is rejected for its namespace, whatever its service
      name. */
  lemma ManagementTypeSpecBadNamespaceFirst(base: string, org: string, namespace: string, service: string)
    requires '/' !in org && org != "common-types" && '/' !in namespace && '/' !in service
    requires !IsValidNamespacePattern(namespace)
    ensures CheckFolderStructureV2(base, Join([org, "resource-manager", namespace, service], '/'), true)
      == Verdict(false, BadNamespace)
  {
    ManagementSegments([org, "resource-manager", namespace, service]);
    ManagementPlaneFromRelative(base, Join([org, "resource-manager", namespace, service], '/'));
  }

  /** A `stable`/`preview` folder whose relative path names neither plane is
      rejected as outside both. */
  lemma VersionFolderOutsidePlanesRejected(base: string, relPath: string)
    requires |Segments(relPath)| >= 2 && Segments(relPath)[0] != "common-types"
    requires IsStableOrPreview(Last(Segments(relPath)))
    requires !Contains(relPath, "resource-manager") && !Contains(relPath, "data-plane")
    ensures CheckFolderStructureV2(base, relPath, false) == Verdict(false, VersionFolderOutsidePlanes)
  {
    CheckFolderStructureV2Reasons(base, relPath, false);
  }

  /** A TypeSpec project at `org/resource-manager/Namespace`, one level short
      of the service folder, is not compliant. */
  lemma ManagementTypeSpecTooShallow(base: string, org: string, namespace: string)
    requires '/' !in org && org != "common-types" && '/' !in namespace
    ensures CheckFolderStructureV2(base, Join([org, "resource-manager", namespace], '/'), true)
      == Verdict(false, BadManagementTypeSpecLayout)
  {
    ManagementSegments([org, "resource-manager", namespace]);
    ManagementPlaneFromRelative(base, Join([org, "resource-manager", namespace], '/'));
  }

  /** A TypeSpec project at `org/data-plane/service` with a valid service
      name is a compliant data-plane root, provided nothing in its full path
      marks it as management plane. */
  lemma DataPlaneTypeSpecRootCompliant(base: string, org: string, service: string)
    requires '/' !in org && org != "common-types" && IsValidServiceName(service)
    requires !IsManagementPlane(JoinPath(base, Join([org, "data-plane", service], '/')))
    ensures CheckFolderStructureV2(base, Join([org, "data-plane", service], '/'), true)
      == Verdict(true, DataPlaneTypeSpecRoot)
  {
    assert '/' !in service by { assert !IsAlnum('/'); }
    SplitJoin([org, "data-plane", service], '/');
  }

  /** A Swagger `stable`/`preview` folder (any letter case) at
      `org/resource-manager/Namespace/service/version` with a valid namespace
      and service name is compliant. */
  lemma ManagementVersionFolderCompliant(base: string, org: string, namespace: string, service: string, version: string)
    requires '/' !in org && org != "common-types"
    requires IsValidNamespacePattern(namespace) && IsValidServiceName(service)
    requires IsStableOrPreview(version)
    ensures CheckFolderStructureV2(base, Join([org, "resource-manager", namespace, service, version], '/'), false)
      == Verdict(true, ManagementVersionFolder)
  {
    NamespaceHasNoSlash(namespace);
    assert '/' !in service by { assert !IsAlnum('/'); }
    StableOrPreviewHasNoSlash(version);
    ManagementSegments([org, "resource-manager", namespace, service, version]);
    BasenameOfJoinPath(base, Join([org, "resource-manager", namespace, service, version], '/'));
  }

  lemma StableOrPreviewHasNoSlash(name: string)
    requires IsStableOrPreview(name)
    ensures '/' !in name
  {
    var lower := Lower(name);
    forall k | 0 <= k < |name| ensures name[k] != '/' {
      assert lower[k] in lower;
    }
  }

  /** A relative path that mentions `resource-manager` makes the joined
      folder path management plane. */
  lemma ManagementPlaneFromRelative(base: string, rel: string)
    requires Contains(rel, "resource-manager")
    ensures IsManagementPlane(JoinPath(base, rel))
  {
    ContainsIff(rel, "resource-manager");
    var i :| OccursAt(rel, "resource-manager", i);
    var path := JoinPath(base, rel);
    var offset := |path| - |rel|;
    assert path[offset..] == rel;
    assert path[offset + i..offset + i + 16] == rel[i..i + 16];
    assert OccursAt(path, "resource-manager", offset + i);
    ContainsIff(path, "resource-manager");
  }
}

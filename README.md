# Folder structure v2 classifier

This project models the classifier inside the specification-analysis report script
(`analyze_specification.py`). The classifier decides whether a folder under the
`specification` directory of the Azure REST API specs repository follows the strict
"folder structure v2" layout:

- a management-plane TypeSpec project sits at
  `{org}/resource-manager/{Namespace}/{service}`;
- a data-plane TypeSpec project sits at `{org}/data-plane/{service}`;
- a Swagger `stable`/`preview` folder sits one level below one of those service folders;
- anything under `common-types` is always accepted.

Around the classifier the script does some small list and set computations:

- it splits Swagger files and TypeSpec projects into management and data plane;
- it collects the API-version folders named by a readme's `input-file` list and flags a
  readme that names more than one;
- it splits an organisation's folders into compliant and non-compliant, and decides
  whether the organisation is fully compliant.

Modules:

- `Strings` (strings.dfy): the Python `str` operations the script uses. These are the
  `in` substring test, `split`/`join` on one character, and `lower`, with ASCII
  character classes.
- `Paths` (paths.dfy): `os.path.basename`, `os.path.dirname` and `os.path.join` as
  `posixpath` defines them.
- `FolderStructure` (folder_structure.dfy): the path predicates and the compliance
  verdict. These are pure functions, as in the source.
- `OrgAnalysis` (org_analysis.dfy): the per-organisation loops. The plane splits, the
  version collection and the compliance split are methods with loops, each proved equal
  to a recursive specification function, and lemmas state what the source promises
  about that function. It also holds `find_typespec_projects`, whose loops build a set
  that the method's contract describes by membership. The script defines that function
  but never calls it: `analyze_organization` collects its TypeSpec projects with its
  own walk (analyze_specification.py:337-343) and removes no duplicates.

Inputs that the script reads from the filesystem become parameters:

- the existence probe for `tspconfig.yaml`/`main.tsp` is a boolean `hasTypeSpec`;
- directory walks become the sequences of paths they yield;
- a readme's parsed `input-file` value is an `Option<InputFile>`.

A folder is identified by its path relative to the `specification` directory. Its full
path is `JoinPath(base, relPath)`, which is how the walk builds it.

One observation from the proofs: the conjuncts `path_parts[4] == folder_name`
(analyze_specification.py:133) and `path_parts[3] == folder_name`
(analyze_specification.py:150) always hold. The folder name is the basename of the joined
folder path, and that is always the last segment of the relative path (`BasenameOfJoinPath`).
`IsCompliantLayout` therefore states the layout without them, and `CheckFolderStructureV2`
is proved equal to it.

## Model

| member | source | states |
|---|---|---|
| `Strings.ContainsIff` | analyze_specification.py:44-49 | Python's `sub in s` holds exactly when `sub` occurs at some index of `s` |
| `Strings.Split` | analyze_specification.py:57 | `s.split(sep)` yields at least one part, no part holds the separator, and joining the parts with the separator gives `s` back |
| `Strings.SplitJoin` | analyze_specification.py:86 | splitting the join of separator-free parts gives those parts back (the other round trip) |
| `Strings.Lower` | analyze_specification.py:73 | `s.lower()` keeps the length, maps each upper-case letter to its lower-case partner, keeps every other character, and leaves no upper-case letter |
| `Paths.AfterLastSlash` | analyze_specification.py:43 | the index where the basename starts is just past the last slash, with no slash after it |
| `Paths.BasenameIsLastSegment` | analyze_specification.py:43 | `os.path.basename(p)` is the last `/`-separated segment of `p` |
| `Paths.BasenameOfJoinPath` | analyze_specification.py:67 | the folder name of `join(base, rel)` is the last segment of `rel`, for every base |
| `Paths.DirnameOfJoinPath` | analyze_specification.py:21 | `dirname(join(root, name))` is `root` and `basename` is `name`, for a root not ending in a slash and a slash-free name |
| `Paths.DirnameOfJoinPathIgnoresName` | analyze_specification.py:21 | the dirname of a directory joined with a slash-free name does not depend on the name |
| `FolderStructure.ManagementPlaneIff` | analyze_specification.py:40-52 | a path is management plane exactly when its basename contains `.Management` or the whole path contains `resource-manager` |
| `FolderStructure.ServiceNameExamples` | analyze_specification.py:91-93 | the service check accepts the empty name and hyphenated names and rejects `.` and `/` |
| `FolderStructure.NamespacePatternIff` | analyze_specification.py:75-89 | the namespace check accepts exactly two non-empty identifiers joined by one dot, each starting upper-case and alphanumeric throughout |
| `FolderStructure.NamespacePatternAccepts` | analyze_specification.py:82-89 | `Microsoft.Compute` is accepted |
| `FolderStructure.NamespacePatternRejects` | analyze_specification.py:82-89 | `A..B`, `A.` and `AB` are rejected |
| `FolderStructure.NamespaceHasNoSlash` | analyze_specification.py:82-89 | an accepted namespace holds no slash, so it is a single path segment |
| `FolderStructure.StableOrPreviewHasNoSlash` | analyze_specification.py:73 | a name that lower-cases to `stable` or `preview` holds no slash |
| `FolderStructure.CheckFolderStructureV2` | analyze_specification.py:54-164 | the verdict is compliant exactly when the reason tag is a compliant one, and exactly when the folder has one of the allowed layouts (`IsCompliantLayout`): under `common-types`; a TypeSpec root at `{org}/resource-manager/{A.B}/{service}` when management plane or `{org}/data-plane/{service}` otherwise; a non-TypeSpec `stable`/`preview` folder at `{org}/resource-manager/{A.B}/{service}/{version}` when the relative path mentions `resource-manager`, or at `{org}/data-plane/{service}/{version}` when it mentions only `data-plane` |
| `FolderStructure.TypeSpecVerdict` | analyze_specification.py:97-127 | a folder holding a TypeSpec project is compliant exactly when it is a management-plane root `{org}/resource-manager/{A.B}/{service}` or a data-plane root `{org}/data-plane/{service}`, as its plane requires; the reason tag is compliant exactly then |
| `FolderStructure.ManagementVersionVerdict` | analyze_specification.py:131-147 | a `stable`/`preview` folder on a `resource-manager` path is compliant exactly when it sits at `{org}/resource-manager/{A.B}/{service}/{version}` with a valid namespace and service name |
| `FolderStructure.DataPlaneVersionVerdict` | analyze_specification.py:148-159 | a `stable`/`preview` folder on a `data-plane` path is compliant exactly when it sits at `{org}/data-plane/{service}/{version}` with a valid service name |
| `FolderStructure.VersionVerdict` | analyze_specification.py:130-161 | a `stable`/`preview` folder is compliant exactly when it has the management shape on a path mentioning `resource-manager`, or the data-plane shape on a path mentioning `data-plane` but not `resource-manager`; other such folders are not compliant |
| `FolderStructure.TypeSpecReasons` | analyze_specification.py:98-127 | the tag a TypeSpec folder gets: a wrong layout for its plane first, then a bad namespace (management only), then a bad service name, else the plane's compliant root tag |
| `FolderStructure.ManagementVersionReasons` | analyze_specification.py:131-147 | the tag a management `stable`/`preview` folder gets: a layout other than five segments under `resource-manager` first, then a bad namespace, then a bad service name, else compliant |
| `FolderStructure.DataPlaneVersionReasons` | analyze_specification.py:148-159 | the tag a data-plane `stable`/`preview` folder gets: a layout other than four segments under `data-plane` first, then a bad service name, else compliant |
| `FolderStructure.VersionReasons` | analyze_specification.py:130-161 | a `stable`/`preview` folder goes to the management rule when its path mentions `resource-manager`, to the data-plane rule when it mentions only `data-plane`, and is rejected as outside both planes otherwise |
| `FolderStructure.CheckFolderStructureV2Reasons` | analyze_specification.py:66-130 | past the early exits, a TypeSpec folder gets the TypeSpec rule's verdict for its full path's plane, and any other folder whose last segment is `stable`/`preview` gets the version rule's verdict |
| `FolderStructure.ShortPathRejectedFirst` | analyze_specification.py:59-60 | fewer than two segments gives a non-compliant "too short" verdict whatever the base and the TypeSpec flag |
| `FolderStructure.CommonTypesAlwaysCompliant` | analyze_specification.py:62-64 | a first segment `common-types` is compliant whatever the other inputs |
| `FolderStructure.TypeSpecRuleTakesPrecedence` | analyze_specification.py:98-130 | a TypeSpec folder is never judged by the stable/preview rule, so a TypeSpec folder with five segments is never compliant |
| `FolderStructure.OtherFoldersNotCompliant` | analyze_specification.py:129-164 | a non-TypeSpec folder whose last segment is not `stable`/`preview` in any letter case is non-compliant, unless it is under `common-types` |
| `FolderStructure.ManagementVersionRuleFirst` | analyze_specification.py:130-148 | when the relative path mentions both `resource-manager` and `data-plane`, only the five-segment management shape can be compliant |
| `FolderStructure.ManagementSegments` | analyze_specification.py:57 | slash-free segments with `resource-manager` second split back from their join, which mentions `resource-manager` |
| `FolderStructure.ManagementPlaneFromRelative` | analyze_specification.py:48 | a relative path mentioning `resource-manager` makes the joined folder path management plane |
| `FolderStructure.ManagementTypeSpecRootCompliant` | analyze_specification.py:99-113 | every TypeSpec folder `{org}/resource-manager/{A.B}/{service}` with a valid namespace and service name is compliant |
| `FolderStructure.ManagementTypeSpecTooShallow` | analyze_specification.py:101-115 | a TypeSpec folder `{org}/resource-manager/{A.B}` without the service level is non-compliant |
| `FolderStructure.ManagementTypeSpecBadNamespaceFirst` | analyze_specification.py:101-108 | a TypeSpec folder `{org}/resource-manager/{ns}/{service}` with an invalid namespace is rejected for its namespace, whatever its service name |
| `FolderStructure.VersionFolderOutsidePlanesRejected` | analyze_specification.py:160-161 | a `stable`/`preview` folder whose relative path names neither plane is rejected as outside both |
| `FolderStructure.DataPlaneTypeSpecRootCompliant` | analyze_specification.py:116-125 | a TypeSpec folder `{org}/data-plane/{service}` that is not management plane and has a valid service name is compliant |
| `FolderStructure.ManagementVersionFolderCompliant` | analyze_specification.py:130-145 | every Swagger folder `{org}/resource-manager/{A.B}/{service}/{stable or preview, any case}` with a valid namespace and service name is compliant |
| `OrgAnalysis.FindTypeSpecProjects` | analyze_specification.py:24-38 | the project directories are exactly the dirnames of the `tspconfig.yaml` and `main.tsp` paths, each once (the script defines this function but does not call it) |
| `OrgAnalysis.ProjectWithBothFilesReportedOnce` | analyze_specification.py:29-36 | a directory holding both files yields the same dirname from each, so it is reported once, as itself |
| `OrgAnalysis.BothFilesShareDirname` | analyze_specification.py:29-36 | for every directory, its `tspconfig.yaml` and its `main.tsp` give the same dirname, so a project holding both is reported once |
| `OrgAnalysis.SwaggerFilesOf` | analyze_specification.py:181-194 | a file is selected for a plane exactly when it is in the input and its relative path classifies into that plane |
| `OrgAnalysis.ClassifySwaggerFiles` | analyze_specification.py:181-194 | the loop builds the management list and the data list of `SwaggerFilesOf`, and no file is in both |
| `OrgAnalysis.SwaggerFilesOfAppend` | analyze_specification.py:186-191 | selection commutes with concatenation, so each list keeps the input order |
| `OrgAnalysis.SwaggerPartition` | analyze_specification.py:186-192 | the management, data and unclassified selections together hold every input file exactly once |
| `OrgAnalysis.ProjectsOfPlane` | analyze_specification.py:353-357 | a project is selected exactly when it is in the input and its management-plane test gives the requested answer |
| `OrgAnalysis.SplitTypeSpecProjects` | analyze_specification.py:350-357 | the loop builds the management and data TypeSpec project lists of `ProjectsOfPlane` |
| `OrgAnalysis.ProjectsPartition` | analyze_specification.py:353-357 | the two project lists together hold every project exactly once |
| `OrgAnalysis.SlashFreeRunEnd` | analyze_specification.py:311 | the greedy `[^/]+` run from `k` ends at the first slash at or after `k`, or at the end of the string |
| `OrgAnalysis.VersionMatchAtSound` | analyze_specification.py:311-313 | a match at `i` with version `v` means `/stable/v/` or `/preview/v/` sits at `i`, with `v` non-empty and slash-free |
| `OrgAnalysis.VersionMatchAtComplete` | analyze_specification.py:311-313 | such an occurrence at `i` makes the pattern match there with version `v` |
| `OrgAnalysis.VersionMatchAtIff` | analyze_specification.py:311-313 | both directions together |
| `OrgAnalysis.SearchFromLeftmost` | analyze_specification.py:311 | a left-to-right search over positions returns `v` exactly when some position gives `v` and no earlier position gives a match |
| `OrgAnalysis.SearchVersionFromLeftmost` | analyze_specification.py:311 | the search returns the match at the leftmost matching index and no other |
| `OrgAnalysis.NoMatchAtIff` | analyze_specification.py:311 | the pattern fails at an index exactly when no `/stable/v/` or `/preview/v/` with non-empty slash-free `v` starts there |
| `OrgAnalysis.ApiVersionOfIff` | analyze_specification.py:311-313 | an entry names version `v` exactly when `v` is non-empty and slash-free, `/stable/v/` or `/preview/v/` occurs at some index, and no such version path starts earlier |
| `OrgAnalysis.ApiVersionsMembership` | analyze_specification.py:307-314 | a version is collected exactly when some `input-file` entry names it |
| `OrgAnalysis.CollectApiVersions` | analyze_specification.py:302-314 | the loop collects exactly the set `ApiVersions` of the entries; a single string counts as a one-element list |
| `OrgAnalysis.MixedVersionsIff` | analyze_specification.py:316-317 | more than one distinct version exactly when two entries name two different versions |
| `OrgAnalysis.ProblematicReadmesMembership` | analyze_specification.py:316-320 | a readme path is reported exactly when a readme at that path mixes versions |
| `OrgAnalysis.CheckVersionUniformIssues` | analyze_specification.py:244-330 | the loop reports the problematic readmes in order, and the issue flag is set exactly when some readme mixes versions |
| `OrgAnalysis.CompliantFoldersMembership` | analyze_specification.py:397-400 | a folder is listed as compliant exactly when its verdict is compliant |
| `OrgAnalysis.NonCompliantFoldersMembership` | analyze_specification.py:397-402 | a (folder, reason) pair is listed exactly when the folder's verdict is non-compliant with that reason |
| `OrgAnalysis.PartitionFolders` | analyze_specification.py:396-402 | the loop builds the compliant list and the non-compliant (folder, reason) list of the compliance check |
| `OrgAnalysis.FolderPartition` | analyze_specification.py:396-402 | the two lists together hold every folder exactly once |
| `OrgAnalysis.FullyCompliantIff` | analyze_specification.py:410-411 | the organisation is fully compliant exactly when it has at least one folder and every folder is compliant |

## Left out

- The TypeScript folder-structure rule for the same convention (v1 layouts, a depth cap, the target-branch policy, import-boundary scanning) is a separate component and is not modelled.
- Directory walks (`os.walk`, `os.listdir`), existence probes and file reads are I/O. Their results are inputs: sequences of paths, the `hasTypeSpec` flag, and the parsed `input-file` value.
- `find_files_with_pattern` and `find_swagger_files` (the walks and the `examples` skipping) are left out for the same reason. Their output is the input sequence of `FindTypeSpecProjects` and `ClassifySwaggerFiles`.
- Reading a readme, locating `## Basic Information`, the `default-tag`, the fenced YAML block, and `yaml.safe_load` are regex and YAML library behaviour. A readme that the script skips at any of those steps is modelled as `inputFile == None`. An `input-file` list entry that is not a string is not modelled.
- `is_rpaas_service`, `has_data_plane_swagger` and `count_readme_files_in_resource_manager` are file reads and walks with trivial substring tests.
- The "simple structure" parent-folder counting and the building of `all_folders` from walks are left out: they are nested walks over the filesystem. `PartitionFolders` takes the folder list as input.
- `main` is left out: hard-coded paths, progress printing, the pandas/Excel report and the exception fallback entry are reporting plumbing.
- `CheckFolderStructureV2`: `os.path.relpath` normalisation is not modelled. The folder path is `JoinPath(base, relPath)`, as the walk builds it, and the relative path is taken as given.
- `ClassifySwaggerFiles`: `relpath(file, org)` is modelled as dropping the `org/` prefix. This holds for the walk's output, so the method requires every file to start with `org/`.
- Character classes are ASCII only. `str.isupper`, `str.isalnum` and `str.lower` treat non-ASCII letters and digits differently.
- Reason strings are not modelled: the f-string texts are replaced by the `Reason` tag of the branch that produced them.
- `FindTypeSpecProjects` returns a set. The source returns `list(set)`, whose order is unspecified.

# deppy / dep_vers dependency analysis, modelled in Dafny

deppy is a dependency-management tool for Python projects. Given a project
(a package already installed, a folder of `setup.py` files, or the URL of one
`setup.py`), it collects the declared requirements, asks a package index which
versions of each dependency exist, and reports the newer versions available
against each requirement. It also shows the dependency tree of an installed
package with details per package, and groups licences. The repository holds two
generations of the engine: the current one under `deppy/` and an older one
under `dep_vers/`.

This project models the analysis core of both generations:

- `loose_version.dfy` (module `LooseVersion`): Python 2 `distutils.version.LooseVersion`, which both generations use to compare versions.
  - A version string is split into numeric and alphabetic components.
  - Components are compared with Python 2 `cmp`, under which a number sorts before a string.
- `text.dfy` (`Text`): byte-string lower-casing, `find`, and Python 2 string order.
- `versions.dfy` (`Versions`): `deppy/versions.py`.
  - `split_require`: the longest operator prefix.
  - `compare`.
  - `_filter_newer`.
  - `get_new_available`: the report over the sorted keys.
- `pip_deptree.dfy` (`DependencyTree`): the dependency-tree builder both generations run over `pipdeptree -j` output, parameterised by the generation.
  - The tree's keys, the edges each key records, and depth handling.
  - Termination, and reachability from the root.
  - Every key, not only the root, holds the edges of the last item describing it; at unlimited depth, everything reachable along those edges is a key.
- `dependencies.dfy` (`Dependencies`): `deppy/dependencies.py`.
  - Requirement parsing in `get_from_file`.
  - `_rec_build_tree` and `build_tree`, with the diamond-shaped test fixture of `build_tree`.
  - `get_for_package`.
- `grouping.dfy` (`Grouping`): the dictionaries the commands fill in loops, stated as functions of the pairs the loop meets.
  - `dict(pairs)`.
  - Grouping values under keys, with or without the "not already in the list" test.
- `deppy.dfy` (`Commands`): `deppy/deppy.py`.
  - `_set_default_kwargs` and the input collectors.
  - `seekup`, `licenses`, and the field filtering of `show_package`.
- `vers_getter.dfy` (`VersGetter`): `dep_vers/vers_getter.py`.
  - `split_required_versions` and `get_new_versions_available` in dictionary order.
  - The PyPI and pip extractions.
- `dep_vers_module.dfy` (`DepVersModule`): `dep_vers/dep_vers_module.py`.
  - Requirement parsing.
  - `rec_build_dep_tree`.
  - `get_dependencies_for_package`.
- `dep_vers_project.dfy` (`DepVersProject`): `seekup` and `show_package` of `dep_vers/dep_vers_project.py`.
- `wrappers.dfy`: `Option` and `Result`.

The following are parameters of the model:

- **What the outside world returns**:
  - the parsed `pipdeptree` JSON;
  - the keyword arguments a `setup.py` passes to `setup()`;
  - the index's JSON document;
  - pip's output.
- **The version lookup** a command fans out to. It is a function from a package name to its `(name, versions, licence)` triple.
- **The iteration order of a dictionary** where the result depends on it. Either the order is a parameter, or the choice of key is left to the verifier (`:|`) and the properties are stated for every order.

Dictionaries that the source mutates in place are always local to one call. They are modelled as map values that the methods build and return.

Where the code and its own documentation disagree, the model follows the code:

- **Records without newer versions.** The docstrings of `get_new_available` and `get_new_versions_available` say such records are omitted. The code keeps them, and `tests/versions_tests.py:334-339` expects them.

Mixed versions follow Python 2's `cmp`, under which a number sorts before a string. So "1.8rc1" is newer than "1.8.1" (`LooseVersion.CompareWordAfterNumber`). The fixture at `tests/deppy_tests.py:845-880` lists "1.8rc1" among the versions newer than "==1.8.1".

## Model

| member | source | states |
|---|---|---|
| Text.LowerChar | deppy/dependencies.py:118 | `str.lower()` on a byte changes only 'A'..'Z', each to the letter 32 codes up; the result is never upper-case |
| Text.Lower | deppy/dependencies.py:118 | lower-casing keeps the length and lowers each character |
| Text.LowerIsLower | deppy/dependencies.py:118-119 | a lowered name is lower-case and lowering it again changes nothing |
| Text.LowerOfLower | dep_vers/dep_vers_module.py:127-128 | a name already lower-case is its own lowered form |
| Text.FindFrom | dep_vers/vers_getter.py:137-138 | `find(sub, k)` is the first index from `k` where `sub` occurs, or -1 when it occurs nowhere from `k` |
| Text.LessIrreflexive | deppy/versions.py:106 | Python 2 string `<` never holds between a string and itself |
| Text.LessAsymmetric | deppy/versions.py:106 | string `<` is asymmetric |
| Text.LessTransitive | deppy/versions.py:106 | string `<` is transitive |
| Text.LessTotal | deppy/versions.py:106 | any two distinct strings are ordered one way, so `sorted` is well defined |
| LooseVersion.RunEnd | deppy/versions.py:45 | the tokenizer's run ends at the first character not of its kind |
| LooseVersion.ParseFrom | deppy/versions.py:45 | at most one component per character; every word component is non-empty and holds neither digits nor dots |
| LooseVersion.CompareComponent | deppy/versions.py:45 | `cmp` of two components is -1, 0 or 1, and 0 exactly when they are equal |
| LooseVersion.CompareParts | deppy/versions.py:45 | `cmp` of component lists is -1, 0 or 1 |
| LooseVersion.Compare | deppy/versions.py:45 | `cmp(LooseVersion(a), LooseVersion(b))` is -1, 0 or 1 |
| LooseVersion.ComparePartsZeroIff | deppy/versions.py:45 | component lists compare 0 exactly when they are equal |
| LooseVersion.CompareZeroIff | deppy/versions.py:45 | versions compare equal exactly when they parse to the same components |
| LooseVersion.CompareReflexive | deppy/versions.py:45 | every version compares equal to itself |
| LooseVersion.CompareAntisymmetric | deppy/versions.py:45 | swapping the versions negates the result |
| LooseVersion.CompareTransitive | deppy/versions.py:58-59 | "newer than" is transitive |
| LooseVersion.ExtensionIsNewer | dep_vers/vers_getter.py:65-67 | a version whose components extend another's is newer |
| LooseVersion.ParseExample1133 | tests/vers_getter_tests.py:190 | "1.13.3" parses to the numbers 1, 13, 3 |
| LooseVersion.ParseExample11313 | tests/vers_getter_tests.py:190-191 | "1.13.13" parses to the numbers 1, 13, 13 |
| LooseVersion.CompareNumericComponents | tests/vers_getter_tests.py:190 | "1.13.3" is older than "1.13.13": components compare as numbers |
| LooseVersion.ParseExample131315 | tests/versions_tests.py:190 | "13.13.15" parses to the numbers 13, 13, 15 |
| LooseVersion.ParseExample1131313 | tests/versions_tests.py:190 | "113.13.13" parses to the numbers 113, 13, 13 |
| LooseVersion.CompareLeadingComponent | tests/versions_tests.py:190 | "13.13.15" is older than "113.13.13": the leading component decides first, whatever follows |
| LooseVersion.ParseExampleRc | deppy/versions.py:45 | "1.8rc1" parses to 1, 8, "rc", 1 |
| LooseVersion.ParseExample181 | deppy/versions.py:45 | "1.8.1" parses to 1, 8, 1 |
| LooseVersion.CompareWordAfterNumber | deppy/versions.py:45 | "1.8rc1" is newer than "1.8.1": a word sorts after a number |
| Versions.OperatorsComplete | deppy/versions.py:15-22 | the operator type holds exactly the six keys of `OPERATORS` |
| Versions.OperatorOf | deppy/versions.py:46 | the `OPERATORS` lookup finds the operator with that symbol, or fails when no operator has it |
| Versions.SymbolsPrefixing | deppy/versions.py:31 | the candidates are exactly the operator symbols the requirement starts with |
| Versions.Longest | deppy/versions.py:32 | `max(..., key=len)` is a candidate no other candidate is longer than |
| Versions.SplitRequireParts | deppy/versions.py:25-33 | operator + version is the requirement; the operator is a key of `OPERATORS` or empty, and no prefixing symbol is longer |
| Versions.SplitRequireIsLongestCandidate | deppy/versions.py:31-32 | the operator is `max([op for op in OPERATORS if require.startswith(op)] + [''], key=len)` |
| Versions.SplitRequireNoOperator | deppy/versions.py:31-33 | the operator is empty exactly when no symbol prefixes the requirement |
| Versions.SplitRequireOfOperator | deppy/versions.py:31-33 | an operator followed by a version not starting with '=' splits back into that operator and version |
| Versions.SplitRequireBareVersion | deppy/versions.py:31-33 | a requirement with no operator prefix is all version |
| Versions.CompareWith | deppy/versions.py:36-46 | without an operator the result is the three-way `cmp` (0 exactly on equal components); an unknown operator is the `KeyError` case |
| Versions.CompareWithAgreesWithOrder | deppy/versions.py:44-46 | each operator holds exactly when the three-way result says so ("<" iff -1, ">=" iff not -1, ...) |
| Versions.CompareWithComplements | deppy/versions.py:46 | ">=", "<=", "!=" are the negations of "<", ">", "==" |
| Versions.CompareWithConverse | deppy/versions.py:46 | swapping the versions swaps ">" with "<" and ">=" with "<="; "==" is symmetric |
| Versions.CompareWithSelf | deppy/versions.py:46 | a version is "==", ">=", "<=" itself and not ">", "<", "!=" |
| Versions.IsNewerIsGreaterThan | deppy/versions.py:58-59 | the filter's test is `compare(version, current, '>')` |
| Versions.KeepNewer | deppy/versions.py:58-59 | the comprehension never lengthens the list |
| Versions.KeepNewerMembership | deppy/versions.py:58-59 | a version survives exactly when it is in the list and newer than the current one |
| Versions.FilterNewer | deppy/versions.py:49-59 | an empty current version passes the list through; the result is never longer |
| Versions.FilterNewerMembership | deppy/versions.py:56-59 | otherwise exactly the newer versions remain |
| Versions.KeepNewerAppend | deppy/versions.py:58-59 | the filter keeps list order: it distributes over concatenation |
| Versions.KeepNewerIdempotent | deppy/versions.py:58-59 | filtering twice is filtering once |
| Versions.FilterNewerIdempotent | deppy/versions.py:49-59 | `_filter_newer` is idempotent |
| Versions.FilterNewerMonotone | deppy/versions.py:49-59 | a newer current version leaves a subset of the candidates |
| Versions.FilterNewerExcludesCurrent | deppy/versions.py:58-59 | the current version never survives the filter |
| Versions.FilterNewerExample | tests/vers_getter_tests.py:245-246 | ["3","2","1"] against "1" gives ["3","2"], in the list's order |
| Versions.PackageRequirementsIndex | deppy/versions.py:108-114 | one requirement per requirement string, in list order |
| Versions.RecordOfNewVersions | deppy/versions.py:109-114 | a record keeps package and requirement, and lists the available versions newer than the requirement's version, or all of them when it names none |
| Versions.RecordsOfIndex | deppy/versions.py:105-115 | one record per requirement, in order |
| Versions.RequirementsForMembership | deppy/versions.py:106-108 | a requirement is reported exactly when its package is a key, is listed as available, and has that requirement string |
| Versions.RequirementsPerPackage | deppy/versions.py:106-108 | the requirements of one package come in the package's own list order, or not at all when it has no available versions |
| Versions.SortedEnumerationUnique | deppy/versions.py:106 | there is only one sorted enumeration of a set of keys |
| Versions.Insert | deppy/versions.py:106 | inserting a key into a sorted list keeps it sorted and adds exactly that key |
| Versions.SortedKeys | deppy/versions.py:106 | `sorted(keys)` enumerates the keys in strictly increasing order |
| Versions.RecordsOfAppend | deppy/versions.py:105-115 | records distribute over concatenated requirement lists |
| Versions.AppendPackageRecords | deppy/versions.py:108-114 | the inner loop appends one record per requirement string of the package |
| Versions.GetNewAvailable | deppy/versions.py:93-115 | the report is the records of the requirements, visited in sorted key order, for the packages that have available versions, records without newer versions included |
| Dependencies.SplitOfOperatorPrefix | deppy/dependencies.py:37-42 | an entry starting with an operator keeps a non-empty operator after the split |
| Dependencies.SplitAtOperator | deppy/dependencies.py:37-42 | the split at an operator's occurrence puts the entry back together with a non-empty operator |
| Dependencies.ParseEntryParts | deppy/dependencies.py:35-45 | package + operator + version is the entry; the operator is empty exactly when no operator occurs, and then the triple is `(entry, '', '')` |
| Dependencies.ParseEntrySplitsAtAnOperator | deppy/dependencies.py:36-43 | the entry is split at the first index of some operator that occurs in it |
| Dependencies.ParseEntryScanOrder | deppy/dependencies.py:26-43 | the iteration order of `OPERATORS` does not matter when all occurring operators start at one index (single-operator requirements) |
| Dependencies.GetFromFile | deppy/dependencies.py:21-50 | one parsed triple per `install_requires` entry in order; the name, or the path; the licence, or `UNKNOWN` |
| Dependencies.DependencyEdges | deppy/dependencies.py:129-144 | the edges of a matching item: no `key` skipped, missing or `null` version read as "", names and versions lower-cased |
| Dependencies.RecBuildTree | deppy/dependencies.py:109-151 | the recursive builder computes the tree function `Build` for deppy, whose entries `BuildEntries` gives key by key |
| Dependencies.RecordItem | deppy/dependencies.py:128-150 | a matching item records its edges, then builds each child with one less depth unless the depth is 0 |
| Dependencies.BuildTree | deppy/dependencies.py:154-169 | `None` exactly when `pipdeptree` failed, otherwise the tree built from the empty tree |
| Dependencies.EdgeDependencyParts | deppy/dependencies.py:101-105 | an edge's triple keeps its package, and operator + version is its requirement |
| Dependencies.TreeDependencies | deppy/dependencies.py:98-106 | `None` when the key is missing, else one triple per edge, in order |
| Dependencies.GetForPackage | deppy/dependencies.py:88-106 | as written: `None` on tree failure; the name, `UNKNOWN`, and the dependencies looked up under the name as given |
| Dependencies.MixedCaseNameNotFound | deppy/dependencies.py:98 | as written, a name with an upper-case letter never has dependencies |
| Dependencies.MixedCaseExample | deppy/dependencies.py:95-99 | "Django" installed as "django": the lookup as written misses it |
| Dependencies.DiamondKeys | tests/dependencies_tests.py:44-131 | in the diamond fixture only a, b, c, d and e become keys; f, which nothing reaches, does not |
| Dependencies.DiamondEntries | tests/dependencies_tests.py:44-131 | each of those keys holds its own item's edges, so b and c both keep their edge to d |
| Dependencies.DiamondAllBuilt | tests/dependencies_tests.py:44-131 | a, b, c, d and e are all built, d once though both b and c need it |
| Dependencies.DiamondExample | tests/dependencies_tests.py:44-131 | `build_tree('a')` over the fixture's `pipdeptree` output is exactly the expected tree |
| Dependencies.GetForPackageLowered | deppy/dependencies.py:88-106 | with the lookup under the lower-cased name, the dependencies are present exactly when the output describes the package, and are its edges as triples |
| DependencyTree.EdgeOf | deppy/dependencies.py:130-144 | an edge exists when the dependency has a `key` (and, for dep_vers, a `required_version`); names and versions lower-cased, `null` read as "" |
| DependencyTree.EdgesFromSound | dep_vers/dep_vers_module.py:139-150 | every recorded edge comes from some dependency of the item, and every dependency that yields an edge is recorded |
| DependencyTree.Build | deppy/dependencies.py:118-120 | building never removes a key |
| DependencyTree.Scan | deppy/dependencies.py:121-151 | the loop over the items never removes a key |
| DependencyTree.Record | deppy/dependencies.py:145-150 | recording a matching item adds its key |
| DependencyTree.Expand | deppy/dependencies.py:147-150 | building the children never removes a key |
| DependencyTree.BuildKeeps | deppy/dependencies.py:119-120 | building never changes an existing entry |
| DependencyTree.ScanKeeps | deppy/dependencies.py:121-150 | the scan changes no entry other than the package's own |
| DependencyTree.RecordKeeps | deppy/dependencies.py:145-150 | a matching item sets the package's entry to its edges, and the children leave it and the others alone |
| DependencyTree.ScanNoMatch | deppy/dependencies.py:121-128 | a scan meeting no item for the package changes nothing |
| DependencyTree.ScanLast | deppy/dependencies.py:121-145 | after the scan the package's entry is the edges of the last item describing it |
| DependencyTree.BuildUnknownRoot | deppy/dependencies.py:118-151 | a root no item describes adds nothing (an unknown root yields `{}`) |
| DependencyTree.BuildRecordsRoot | deppy/dependencies.py:118-145 | a known root is not rebuilt; otherwise its entry is the edges of the last item describing it (except dep_vers with depth 0) |
| DependencyTree.ExpandDepVersDepthZero | dep_vers/dep_vers_module.py:128 | dep_vers with depth 0 builds nothing |
| DependencyTree.ScanRootOnly | dep_vers/dep_vers_module.py:128 | deppy at depth 0 and dep_vers at depth 1 add no key but the root's |
| DependencyTree.BuildRootOnly | deppy/dependencies.py:146 | at those depths the result is the input tree plus the root's entry, when some item describes it |
| DependencyTree.BuildOnlyReachable | deppy/dependencies.py:146-150 | every key is reachable from the root, within `depth` edges for deppy and `depth - 1` for dep_vers, or along some walk when unlimited |
| DependencyTree.BuildKeysLower | deppy/dependencies.py:118-145 | every key of a freshly built tree is lower-case |
| DependencyTree.BuildRootRecorded | deppy/dependencies.py:118-145 | the root is recorded exactly when some item describes it (except dep_vers with depth 0) |
| DependencyTree.UnlimitedBuildClosed | deppy/dependencies.py:147-150 | with unlimited depth every edge of every entry leads to another entry unless no item describes that package |
| DependencyTree.BuildFromSource | deppy/dependencies.py:121-150 | every entry a build adds, the root's and each child's built on the way, is the edge list of the last item describing its key |
| DependencyTree.BuildEntries | deppy/dependencies.py:145-150 | every key of a tree built from `{}`, not only the root, holds the edges of the last item describing it |
| DependencyTree.BuildEntryOf | dep_vers/dep_vers_module.py:153-156 | the entry of a key of a built tree is the edge list of the last item describing that key |
| DependencyTree.BuildKeysAreTargets | deppy/dependencies.py:146-150 | every key of a built tree is the root or the lower-cased target of some item's edge |
| DependencyTree.UnlimitedEdgeBuilt | deppy/dependencies.py:145-150 | with unlimited depth, an edge the tree keeps that leads to a described package leads to a key |
| DependencyTree.HopIntoTree | deppy/dependencies.py:145-150 | in a closed tree whose entries come from the source, one edge of a key's last item leads to a key, or to a package no item describes |
| DependencyTree.WalkIntoTree | deppy/dependencies.py:145-150 | in a closed tree whose entries come from the source, a walk from a key along the kept items' edges ends at a key, or at an undescribed package |
| DependencyTree.UnlimitedBuildComplete | deppy/dependencies.py:146-150 | the converse of `BuildOnlyReachable` at unlimited depth: every described package reachable from a described root along the kept items' edges is a key |
| VersGetter.SplitRequiredVersionsIsSplitRequire | dep_vers/vers_getter.py:41-53 | whatever the order of `OPS`, the split equals deppy's `split_require` |
| VersGetter.SplitRequiredVersionsOrderFree | dep_vers/vers_getter.py:48-53 | the iteration order of `OPS` never changes the split |
| VersGetter.KeyRecordsPermutation | dep_vers/vers_getter.py:160-168 | visiting the same keys in another order gives the same records in another order |
| VersGetter.NewVersionsPermutation | dep_vers/vers_getter.py:159-169 | the report in dictionary order holds the same records as deppy's sorted report |
| VersGetter.AppendVersionRecords | dep_vers/vers_getter.py:162-168 | the inner loop appends one record per requirement string |
| VersGetter.GetNewVersionsAvailable | dep_vers/vers_getter.py:146-169 | the report is the records of the requirements, visited in the dictionary's order, for packages that have available versions |
| VersGetter.VersionsFromPypi | dep_vers/vers_getter.py:99-119 | no document gives `(name, [], 'Unknown')`; releases are the document's keys or `[]`; the licence is `info.license` or 'Unknown' |
| VersGetter.SliceBound | dep_vers/vers_getter.py:141 | a slice bound is clamped to the string, and a bound inside it is kept |
| VersGetter.SplitOn | dep_vers/vers_getter.py:142 | `split` always yields at least one piece |
| VersGetter.JoinSplitOn | dep_vers/vers_getter.py:142 | joining the pieces with the separator gives the text back |
| VersGetter.SplitOnPiecesFree | dep_vers/vers_getter.py:142 | no piece holds the separator |
| VersGetter.VersionsFromPipAsWritten | dep_vers/vers_getter.py:122-143 | as written: the name and 'Unknown', no versions when pip could not run |
| VersGetter.PipPrefixMissingExample | dep_vers/vers_getter.py:137-143 | output without the prefix yields `[""]` instead of no versions |
| VersGetter.VersionsFromPip | dep_vers/vers_getter.py:122-143 | corrected: no versions when pip could not run, when the prefix is missing, or when no `")"` follows it; always the name and 'Unknown' |
| VersGetter.PipSuffixMissingExample | dep_vers/vers_getter.py:138-141 | as written, output with the prefix but no `")"` after it has its last character cut: " (from versions: 1.0, 2.0" gives ["1.0", "2."], where the corrected reading gives no versions |
| VersGetter.VersionsFromPipAgrees | dep_vers/vers_getter.py:137-143 | where the output holds the prefix and a `")"` after it, the corrected reading equals the one written |
| VersGetter.VersionsFromPipSpan | dep_vers/vers_getter.py:137-143 | with both delimiters, the versions join back into the text between them, hold no separator, and are empty exactly when that text is |
| DepVersModule.ParseDepEntryIsParseEntry | dep_vers/dep_vers_module.py:56-65 | dep_vers parses an entry exactly as deppy does |
| DepVersModule.GetDependenciesFromFile | dep_vers/dep_vers_module.py:37-68 | one parsed triple per entry in order, none when loading failed; the name, or the path |
| DepVersModule.DepEdges | dep_vers/dep_vers_module.py:137-152 | the edges: a dependency without `key` or `required_version` skipped, `null` read as "", lower-cased |
| DepVersModule.RecBuildDepTree | dep_vers/dep_vers_module.py:117-157 | the recursive builder computes `Build` for dep_vers (depth checked on entry), whose entries `BuildEntries` gives key by key |
| DepVersModule.RecordDepItem | dep_vers/dep_vers_module.py:136-156 | a matching item records its edges, then builds every child with `rec - 1` |
| DepVersModule.BuildDepTree | dep_vers/dep_vers_module.py:160-176 | `None` exactly when `pipdeptree` failed, otherwise the tree built from `{}` |
| DepVersModule.GetDependenciesForPackage | dep_vers/dep_vers_module.py:98-114 | `None` on tree failure; `(None, name)` when the name is not a key; else the root's edges as triples, and the name |
| DepVersModule.PackageTreeIsRootOnly | dep_vers/dep_vers_module.py:105 | with `rec` 1 the tree holds the root alone, exactly when some item describes it |
| DepVersModule.MixedCasePackageNotFound | dep_vers/dep_vers_module.py:108 | a name with an upper-case letter is never a key |
| Grouping.ToMap | deppy/deppy.py:480-482 | `dict(pairs)` has the pairs' keys, each with the value of the last pair with that key |
| Grouping.ToMapFromPairs | deppy/deppy.py:484-487 | every entry of `dict(pairs)` is one of the pairs |
| Grouping.ValuesForMembership | deppy/deppy.py:468-470 | the values appended under a key are exactly those paired with it |
| Grouping.Distinct | deppy/deppy.py:458-459 | the "append unless present" list holds the same elements, each once |
| Grouping.DistinctSnoc | deppy/deppy.py:458-459 | one more value is appended exactly when it is new |
| Grouping.GroupSnoc | deppy/deppy.py:456-470 | grouping one more pair is one more loop step |
| Grouping.GroupMembership | deppy/deppy.py:452-470 | a value is grouped under a key exactly when the pair occurs; with the test, each once |
| Grouping.GroupNonEmpty | deppy/deppy.py:456-457 | no key has an empty list, and the grouping is empty exactly when there is no pair |
| Commands.SetDefaultKwargs | deppy/deppy.py:37-45 | the keys are the union; a given argument is kept and a missing one gets its default |
| Commands.CollectStep | deppy/deppy.py:455-470 | meeting one more dependency is one step of each grouping |
| Commands.AddOnce | deppy/deppy.py:456-459 | starts the key's list if needed and appends the value unless present |
| Commands.AppendItem | deppy/deppy.py:468-470 | starts the key's list if needed and appends the item |
| Commands.CollectManifest | deppy/deppy.py:455-470 | the inner loop adds one manifest's dependencies to both groupings |
| Commands.Collect | deppy/deppy.py:452-470 | `dependencies_dict` groups the `op+ver` strings per package without repetition; `modules_dict` groups cross-references in encounter order |
| Commands.OccurrencesMembership | deppy/deppy.py:454-455 | the dependencies met are exactly the triples of the manifests, with their module |
| Commands.RequirePairsMembership | deppy/deppy.py:456-459 | the `(package, op+ver)` pairs are exactly those of the dependencies met |
| Commands.RequirementsGrouped | deppy/deppy.py:456-473 | every package has a non-empty list without duplicates, and the dictionary is empty exactly when no dependency was met |
| Commands.RequirementDeclared | deppy/deppy.py:456-459 | a requirement is listed under a package exactly when some manifest declares that package with it |
| Commands.CrossRefsGrouped | deppy/deppy.py:461-470 | by module: each module lists its `(package, op+ver)` pairs; otherwise each `package+op+ver` lists the modules declaring it |
| Commands.CrossRefByDependencyExample | tests/deppy_tests.py:2020-2028 | "package7>2" is declared in package6 and package8 |
| Commands.CrossRefByModuleExample | tests/deppy_tests.py:2030-2035 | package8 requires package7 ">2" and package9 "==1" |
| Commands.FetchAll | deppy/deppy.py:48-56 | the fan-out answers each key once, in the order the keys were handed out |
| Commands.Illegitimate | deppy/deppy.py:489-493 | a package is flagged exactly when its licence is not on the allow-list, with that licence |
| Commands.VersionsDictOfFetched | deppy/deppy.py:476-482 | `versions_dict` maps each dependency with some version to its versions, whatever the answer order |
| Commands.LicenseDictOfFetched | deppy/deppy.py:484-487 | `license_dict` maps each dependency to the index's licence |
| Commands.FromPackage | deppy/deppy.py:211-226 | tree failure and a package not installed are errors; otherwise one manifest |
| Commands.FromPath | deppy/deppy.py:180-195 | no `setup.py` found is an error; otherwise the manifests |
| Commands.FromUrl | deppy/deppy.py:198-208 | a failed download is an error; otherwise one manifest |
| Commands.Seekup | deppy/deppy.py:422-521 | the checks in order (no input, input type, collector, no dependencies, no versions), then the sorted report over the grouped requirements and the available versions, the module map, and the licence maps as the allow-list asks |
| Commands.DeclaredLicenses | deppy/deppy.py:550-551 | the declared licence map has every manifest's name, the last manifest of a name winning |
| Commands.LicenseEntriesMembership | deppy/deppy.py:563-579 | an entry is grouped exactly when some name looked up yields it (and is flagged, for the illegitimate map) |
| Commands.GroupLicenses | deppy/deppy.py:563-579 | the loop builds both groupings of the entries, each list without repetition |
| Commands.LicensesGrouped | deppy/deppy.py:563-579 | whatever the answer order, a value is under a key exactly when some name yields that entry, and lists have no duplicates |
| Commands.Licenses | deppy/deppy.py:524-587 | the checks in order, then the licences of the manifests' names and of their dependencies grouped, `UNKNOWN` replaced by the declared licence |
| Commands.DocumentPairsMembership | deppy/deppy.py:369-374 | a document is kept, under its lower-cased name, exactly when it was fetched and its `info` has a `name` |
| Commands.PackagesDictIndexed | deppy/deppy.py:366-374 | every entry of `packages_dict` is the document of some tree key under its lower-cased name, and every kept document has an entry |
| Commands.EntryFields | deppy/deppy.py:380-402 | an entry keeps its edges and holds summary and homepage exactly when asked for and not `null`; the licence (even `null`) and the versions whenever asked for; missing fields read `UNKNOWN` |
| Commands.EntryWithoutDetails | deppy/deppy.py:362-376 | with no detail asked for, each entry is its edges alone |
| Commands.RewriteTree | deppy/deppy.py:380-405 | every tree key gets its entry, and a package is flagged exactly when a non-empty allow-list does not name its licence |
| Commands.ShowPackage | deppy/deppy.py:336-419 | no input and tree failure are errors; otherwise every key gets its entry from the documents fetched for the tree's keys, and the illegitimate map is present exactly when an allow-list was given |
| DepVersProject.AsManifests | dep_vers/dep_vers_project.py:365-366 | each `(dependencies, module)` item keeps its triples and module |
| DepVersProject.DepsFromPath | dep_vers/dep_vers_project.py:120-135 | no `setup.py` found is an error; otherwise the items |
| DepVersProject.DepsFromUrl | dep_vers/dep_vers_project.py:138-142 | a failed download is an error; otherwise one item |
| DepVersProject.DepsByPackageName | dep_vers/dep_vers_project.py:145-158 | tree failure and a package not installed are errors; otherwise one item |
| DepVersProject.Seekup | dep_vers/dep_vers_project.py:347-411 | an unknown source, then an unknown input type, are rejected before any work; then the collector's error, no dependencies, no versions; the report holds the records in dictionary order (the same records as the sorted report), the module map, and the licence map exactly when the flag is set |
| DepVersProject.DetailsFields | dep_vers/dep_vers_project.py:324-340 | an entry keeps its edges and holds each field exactly when asked for and not `null`; missing summary and homepage read '', a missing licence 'Unknown' |
| DepVersProject.LicenseAgainstDeppy | dep_vers/dep_vers_project.py:330-340 | the generations differ only on a `null` licence: deppy reports `null`, dep_vers drops the field |
| DepVersProject.RewriteTree | dep_vers/dep_vers_project.py:324-340 | every tree key gets its filtered entry |
| DepVersProject.ShowPackage | dep_vers/dep_vers_project.py:306-344 | tree failure is the only error; otherwise every key gets its entry from the documents fetched for the tree's keys |

## Left out

- Command-line parsing (`_parse_args`, `parse_args`, `main`) is not modelled. The model takes the parsed arguments, after the defaults, as a datatype.
- Rendering is not modelled: `_seekup_to_string_*`, `_licenses_to_string`, `_dependencies_tree_to_string`, `_illegitimate_licenses_to_string`, `dep_tree_to_print`, `seekup_result_to_print` and `json.dumps`. They format output and do no analysis.
- Network, subprocesses and the file system become parameters. This covers `get_package_data_from_pypi`, `get_json_from_pypi`, running pip and `pipdeptree`, and `_find_files_in_path` / `find_files_in_path`. `get_by_url` / `get_dependencies_by_url` are covered too, including their renaming of the package to the URL.
  - Executing a `setup.py` under a patched `setuptools.setup` (`_get_setup_kwargs`, `get_setup_kwargs`) is replaced by the keyword arguments it would capture.
- Parallelism (`multiprocessing.Pool`, joblib, `max_threads`) is modelled as a sequential fan-out. The fan-out answers each key once, in an unspecified order.
- Python 2 dictionary and set iteration order is unknown.
  - Where results depend on it, the order is a parameter, or it is chosen arbitrarily by the verifier.
  - Properties are stated for every order: as a permutation of the sorted report, or as order-free membership.
- Commands.Licenses: the ensures gives the groupings for some order of the fan-out's answers. That order is the order in which the set of names is iterated. `Commands.LicensesGrouped` states what the groupings hold whatever that order is.
- DepVersProject.Seekup: the ensures states the records for some enumeration of `dep_dic`. It uses the same enumeration for the fan-out and for `get_new_versions_available`, because both iterate the same unchanged dictionary.
- `deppy/consts.py` is not part of this model.
  - `UNKNOWN` is a placeholder constant.
  - The input-type and source names are the keys of the `inputs` and `sources` maps.
  - Error messages are constructors; their texts are not modelled.
- `LooseVersion('')` has no component list in Python 2, and comparing it raises. The model reads it as the empty list.
- JSON values that are not strings, and their `str()` conversion, are not modelled: names, versions and licences are strings.
  - A JSON `null` for `releases` or `info.name` in `show_package` would raise, so it is not modelled.
  - A `null` licence in `get_from_pypi` / `get_versions_from_pypi` is read as a present licence.
- The optional statement that deppy with depth d builds the same tree as dep_vers with `rec` d + 1 is not proved. The two builders are one function, `DependencyTree.Build`, with the generation as a parameter. `ScanRootOnly` and `BuildOnlyReachable` state the one-level shift.
- `DepVersModule.GetDependenciesForPackage` is modelled as written. It has the same lower-case lookup problem as deppy's `get_for_package` (`MixedCasePackageNotFound`). Only the deppy version has a corrected counterpart.
- DepVersProject.ShowPackage: the fetched `json_dic` is a ghost output. Its relation to the tree's keys is stated by `IndexedBy`.
- Commands.ShowPackage: the same applies to `packages_dict`.
- Dictionaries and the tree are mutated in place in the source. Here they are values that the methods return. This loses nothing, because each is local to one call.

## Findings

| source | as written | input that shows it | evidently intended | confidence | as-written member | corrected member |
|---|---|---|---|---|---|---|
| deppy/dependencies.py:98 | the tree is keyed by lower-cased names, but the root is looked up under the name as given | `get_for_package('Django')` with "django" installed returns `(None, 'Django', UNKNOWN)`, which seekup reports as "package not installed" | look up `package_name.lower()` | not executed | Dependencies.MixedCaseExample | Dependencies.GetForPackageLowered |
| dep_vers/vers_getter.py:137-143 | `find` returning -1 for a missing prefix is not checked, so the span starts at index `len(prefix) - 1` | pip output "pip: not found" yields the versions `[""]` | no versions when the prefix is missing | not executed | VersGetter.PipPrefixMissingExample | VersGetter.VersionsFromPip |
| dep_vers/vers_getter.py:138-141 | `find` returning -1 for a missing `")"` is not checked, so the slice `res[start:-1]` ends one character before the end of the output | pip output " (from versions: 1.0, 2.0" yields the versions `["1.0", "2."]` | no versions when no `")"` follows the prefix, as when `start == end` | not executed | VersGetter.PipSuffixMissingExample | VersGetter.VersionsFromPip |

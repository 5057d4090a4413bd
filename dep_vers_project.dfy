/**
 * The commands of the older generation (`dep_vers/dep_vers_project.py`):
 * `seekup`, which checks the chosen version source and input type, groups
 * the dependencies the input collector found and asks the source for the
 * versions of every package, and `show_package`, which rewrites each entry
 * of the dependency tree into the fields asked for, dropping those that are
 * `None`.
 */
module DepVersProject {
  import opened Wrappers
  import opened Versions
  import opened DependencyTree
  import opened Dependencies
  import opened VersGetter
  import opened DepVersModule
  import opened Grouping
  import Commands

  /** The error `seekup` and `show_package` report; the text of each message is not modelled. */
  datatype Error =
    | IllegalSource
    | IllegalInputType
    | NoSetupFile
    | UrlFailed
    | BuildingTreeFailed
    | NoPackageInstalled
    | NoDependencies
    | NoVersions

  /** One item of the list an input collector returns: the dependency triples and the module they come from. */
  datatype ModuleDeps = ModuleDeps(deps: seq<Dependency>, moduleName: string)

  /**
   * The items as the aggregation shared with deppy reads them; it reads
   * the triples and the module only, so the licence slot is a placeholder.
   */
  function AsManifests(list: seq<ModuleDeps>): (ms: seq<Commands.Manifest>)
    ensures |ms| == |list|
    ensures forall i :: 0 <= i < |list| ==> ms[i].deps == list[i].deps && ms[i].moduleName == list[i].moduleName
  {
    seq(|list|, i requires 0 <= i < |list| => Commands.Manifest(list[i].deps, list[i].moduleName, UnknownLicense))
  }

  /** `get_deps_from_path`, given what `get_dependencies_from_file` returned for each `setup.py` found. */
  function DepsFromPath(found: seq<ModuleDeps>): (r: Result<seq<ModuleDeps>, Error>)
    ensures found == [] <==> r == Failure(NoSetupFile)
    ensures found != [] ==> r == Success(found)
  {
    if found == [] then Failure(NoSetupFile) else Success(found)
  }

  /** `get_deps_from_url`, given what `get_dependencies_by_url` returned. */
  function DepsFromUrl(found: Option<ModuleDeps>): (r: Result<seq<ModuleDeps>, Error>)
    ensures found.None? <==> r == Failure(UrlFailed)
    ensures found.Some? ==> r == Success([found.value])
  {
    if found.None? then Failure(UrlFailed) else Success([found.value])
  }

  /** `get_deps_by_package_name`, given what `get_dependencies_for_package` returned. */
  function DepsByPackageName(found: Option<PackageDeps>): (r: Result<seq<ModuleDeps>, Error>)
    ensures found.None? <==> r == Failure(BuildingTreeFailed)
    ensures found.Some? && found.value.deps.None? <==> r == Failure(NoPackageInstalled)
    ensures found.Some? && found.value.deps.Some? ==> r == Success([ModuleDeps(found.value.deps.value, found.value.name)])
  {
    match found
    case None => Failure(BuildingTreeFailed)
    case Some(res) =>
      if res.deps.None? then Failure(NoPackageInstalled)
      else Success([ModuleDeps(res.deps.value, res.name)])
  }

  /** The `seekup` arguments the aggregation reads. */
  datatype SeekupArgs = SeekupArgs(source: string, inputType: string, byModule: bool, showLicense: bool)

  /** The dictionary `seekup` returns (as JSON, or rendered); `licenses` only with the licence flag. */
  datatype SeekupReport = SeekupReport(
    results: seq<Record>,
    modules: map<string, seq<Commands.CrossRef>>,
    licenses: Option<map<string, string>>)

  /** An enumeration of a set without duplicates holds each element once. */
  lemma EnumerationCounts(order: seq<string>, keys: set<string>)
    requires NoDuplicates(order) && forall k :: k in order <==> k in keys
    ensures multiset(order) == multiset(keys)
  {
    NoDuplicatesCounts(order);
    assert forall x :: multiset(order)[x] == multiset(keys)[x];
  }

  /**
   * `seekup(args)`. `sources` maps each name of `SOURCES` to its extraction
   * (`get_versions_from_pypi`, `get_versions_from_pip`), `inputs` maps each
   * input type of `INPUTS` to what its collector returns, and `ops` is the
   * iteration order of `OPS`. The checks come in the source's order: an
   * unknown source, an unknown input type, the collector's error, no
   * dependency, no versions. Otherwise the results are those of
   * `get_new_versions_available` over `dep_dic` in its iteration order (the
   * same records as deppy's sorted report, in another order), and the
   * licence map is there exactly when the flag is set.
   */
  method Seekup(args: SeekupArgs, sources: map<string, string -> VersionsOf>,
                inputs: map<string, Result<seq<ModuleDeps>, Error>>, ops: seq<Operator>)
    returns (r: Result<SeekupReport, Error>)
    requires forall s, k :: s in sources ==> sources[s](k).name == k
    requires forall op: Operator :: op in ops
    ensures args.source !in sources ==> r == Failure(IllegalSource)
    ensures args.source in sources && args.inputType !in inputs ==> r == Failure(IllegalInputType)
    ensures args.source in sources && args.inputType in inputs && inputs[args.inputType].Failure? ==>
              r == Failure(inputs[args.inputType].error)
    ensures args.source in sources && args.inputType in inputs && inputs[args.inputType].Success? ==>
              var occ := Commands.Occurrences(AsManifests(inputs[args.inputType].value));
              var deps := Group(Commands.RequirePairs(occ), true);
              var fetch := sources[args.source];
              var available := Commands.Available(deps.Keys, fetch);
              (occ == [] ==> r == Failure(NoDependencies)) &&
              (occ != [] && available == map[] ==> r == Failure(NoVersions)) &&
              (occ != [] && available != map[] ==>
                 r.Success? &&
                 r.value.modules == Group(Commands.CrossRefPairs(occ, args.byModule), false) &&
                 (exists order :: multiset(order) == multiset(deps.Keys) &&
                    r.value.results == RecordsOf(RequirementsFor(order, deps, available), available)) &&
                 (forall keys :: SortedEnumeration(keys, deps.Keys) ==>
                    multiset(r.value.results) == multiset(RecordsOf(RequirementsFor(keys, deps, available), available))) &&
                 (r.value.licenses.Some? <==> args.showLicense) &&
                 (r.value.licenses.Some? ==> r.value.licenses.value == Commands.IndexLicenses(deps.Keys, fetch)))
  {
    if args.source !in sources {
      return Failure(IllegalSource);
    }
    if args.inputType !in inputs {
      return Failure(IllegalInputType);
    }
    var collected := inputs[args.inputType];
    if collected.Failure? {
      return Failure(collected.error);
    }
    var ms := AsManifests(collected.value);
    var deps, modules := Commands.Collect(ms, args.byModule);
    Commands.RequirementsGrouped(Commands.Occurrences(ms));
    if deps == map[] {
      return Failure(NoDependencies);
    }
    var fetch := sources[args.source];
    var order, list := Commands.FetchAll(deps.Keys, fetch);
    var available := Commands.VersionsDict(list);
    Commands.VersionsDictOfFetched(order, list, fetch);
    assert (set k | k in order) == deps.Keys;
    var licenses := if args.showLicense then Some(Commands.LicenseDict(list)) else None;
    if args.showLicense {
      Commands.LicenseDictOfFetched(order, list, fetch);
    }
    if available == map[] {
      return Failure(NoVersions);
    }
    EnumerationCounts(order, deps.Keys);
    var results := GetNewVersionsAvailable(deps, available, order, ops);
    forall keys | SortedEnumeration(keys, deps.Keys)
      ensures multiset(results) == multiset(RecordsOf(RequirementsFor(keys, deps, available), available))
    {
      NewVersionsPermutation(order, keys, deps, available);
    }
    return Success(SeekupReport(results, modules, licenses));
  }

  /** The arguments of `show_package` the rewrite reads. */
  datatype ShowArgs = ShowArgs(input: string, depth: int, showLicense: bool, versions: bool, homepage: bool, summary: bool)

  /** One rewritten tree entry; `None` marks a key the entry does not have. */
  datatype PackageDetails = PackageDetails(
    dependencies: seq<Edge>,
    summary: Option<string>,
    license: Option<string>,
    homepage: Option<string>,
    versions: Option<seq<string>>)

  /** Some detail beyond the dependencies is asked for, so the index is queried. */
  predicate Requested(args: ShowArgs) {
    args.showLicense || args.versions || args.homepage || args.summary
  }

  /** `info.get(key, default)` for a field the entry drops when it is `None` (JSON `null`). */
  function FieldOr(f: Commands.InfoField, default: string): Option<string> {
    match f
    case Missing => Some(default)
    case JsonNull => None
    case Text(s) => Some(s)
  }

  /**
   * The entry `show_package` writes for a package: the edges and each
   * requested field that is not `None`, with `''` for a missing summary or
   * homepage, `UNKNOWN_LICENSE_STR` for a missing licence and the release
   * names, `[]` without any, for the versions.
   */
  function DetailsOf(edges: seq<Edge>, doc: Option<Commands.PackageDocument>, args: ShowArgs): PackageDetails {
    var info := Commands.InfoOf(doc);
    PackageDetails(
      edges,
      if args.summary then FieldOr(info.summary, "") else None,
      if args.showLicense then FieldOr(info.license, UnknownLicense) else None,
      if args.homepage then FieldOr(info.homepage, "") else None,
      if args.versions then Some(if doc.Some? && doc.value.releases.Some? then doc.value.releases.value else []) else None)
  }

  /**
   * An entry keeps its edges and holds a field exactly when it was asked
   * for and is not `null` (the versions are never `None`); what it holds is
   * the document's text, or the default when the key is missing.
   */
  lemma DetailsFields(edges: seq<Edge>, doc: Option<Commands.PackageDocument>, args: ShowArgs)
    ensures var e := DetailsOf(edges, doc, args);
            var info := Commands.InfoOf(doc);
            e.dependencies == edges &&
            (e.summary.Some? <==> args.summary && !info.summary.JsonNull?) &&
            (e.license.Some? <==> args.showLicense && !info.license.JsonNull?) &&
            (e.homepage.Some? <==> args.homepage && !info.homepage.JsonNull?) &&
            (e.versions.Some? <==> args.versions) &&
            (e.summary.Some? ==> e.summary.value == if info.summary.Text? then info.summary.text else "") &&
            (e.license.Some? ==> e.license.value == if info.license.Text? then info.license.text else UnknownLicense) &&
            (e.homepage.Some? ==> e.homepage.value == if info.homepage.Text? then info.homepage.text else "")
  {
  }

  /**
   * The two generations agree on the licence of a package except when the
   * index gives JSON `null`: deppy puts the licence back after dropping the
   * `None` fields, so it reports `null`, while dep_vers drops it.
   */
  lemma LicenseAgainstDeppy(edges: seq<Edge>, doc: Option<Commands.PackageDocument>, args: ShowArgs, allowed: seq<string>)
    requires args.showLicense
    ensures var deppyArgs := Commands.ShowArgs(Some(args.input), args.depth, Some(allowed), args.versions, args.homepage, args.summary);
            var mine := DetailsOf(edges, doc, args).license;
            var theirs := Commands.EntryOf(edges, doc, deppyArgs).license;
            theirs.Some? &&
            (mine.None? <==> theirs.value.NullLicense?) &&
            (mine.Some? && Commands.InfoOf(doc).license.Text? ==> theirs.value == Commands.Named(mine.value))
  {
  }

  /** The loop of `show_package` over the tree's keys: each entry is replaced by its requested fields. */
  method RewriteTree(tree: Tree, found: map<string, Commands.PackageDocument>, args: ShowArgs)
    returns (entries: map<string, PackageDetails>)
    ensures entries.Keys == tree.Keys
    ensures forall p :: p in tree ==> entries[p] == DetailsOf(tree[p], Commands.Lookup(found, p), args)
  {
    entries := map[];
    var rest := tree.Keys;
    while rest != {}
      invariant rest <= tree.Keys
      invariant forall p :: p in entries <==> p in tree && p !in rest
      invariant forall p :: p in entries ==> entries[p] == DetailsOf(tree[p], Commands.Lookup(found, p), args)
      decreases |rest|
    {
      var pack :| pack in rest;
      entries := entries[pack := DetailsOf(tree[pack], Commands.Lookup(found, pack), args)];
      rest := rest - {pack};
    }
  }

  /**
   * `show_package(args)` given what `pipdeptree -j` printed (`None` when it
   * failed) and `fetchDoc` for `get_json_from_pypi`. The tree is built with
   * `rec` set to the depth; the index is queried only when some detail is
   * asked for, and `packages` is the `json_dic` the fan-out produced. Every
   * tree key gets its entry.
   */
  method ShowPackage(args: ShowArgs, output: Option<seq<SourceItem>>, fetchDoc: string -> Option<Commands.PackageDocument>)
    returns (r: Result<map<string, PackageDetails>, Error>, ghost packages: map<string, Commands.PackageDocument>)
    ensures output.None? <==> r == Failure(BuildingTreeFailed)
    ensures output.Some? ==> r.Success?
    ensures r.Success? ==>
              var tree := Build(DepVers, map[], output.value, args.input, args.depth);
              (Requested(args) ==> Commands.IndexedBy(packages, tree.Keys, fetchDoc)) &&
              (!Requested(args) ==> packages == map[]) &&
              r.value.Keys == tree.Keys &&
              forall p :: p in tree ==> r.value[p] == DetailsOf(tree[p], Commands.Lookup(packages, p), args)
  {
    packages := map[];
    var built := BuildDepTree(args.input, args.depth, output);
    if built.None? {
      return Failure(BuildingTreeFailed), packages;
    }
    var tree := built.value;
    var found: map<string, Commands.PackageDocument> := map[];
    if Requested(args) {
      var order, docs := Commands.FetchAll(tree.Keys, fetchDoc);
      found := ToMap(Commands.DocumentPairs(docs));
      Commands.PackagesDictIndexed(order, docs, tree.Keys, fetchDoc);
    }
    packages := found;
    var entries := RewriteTree(tree, found, args);
    return Success(entries), packages;
  }
}

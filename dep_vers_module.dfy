/**
 * The dependency sources of the older generation
 * (`dep_vers/dep_vers_module.py`): the requirement list of a `setup()` call,
 * split with `vers_getter`'s operators, and the tree built from `pipdeptree`
 * output, where the depth is checked on entry and a dependency without a
 * `required_version` is dropped.
 */
module DepVersModule {
  import opened Wrappers
  import opened Text
  import opened Versions
  import opened DependencyTree
  import opened Dependencies
  import opened VersGetter

  /**
   * The inner loop of `get_dependencies_from_file` over one entry: the
   * operators are tried in `scan` order and the first one found splits the
   * entry at its index with `split_required_versions` (whose own operator
   * order is `ops`); with none found the entry is all name.
   */
  function ParseDepEntry(entry: string, scan: seq<Operator>, ops: seq<Operator>): Dependency {
    if scan == [] then Dependency(entry, "", "")
    else
      var index := Find(entry, scan[0].Symbol());
      if index >= 0 then
        var split := SplitRequiredVersions(entry[index..], ops);
        Dependency(entry[..index], split.0, split.1)
      else ParseDepEntry(entry, scan[1..], ops)
  }

  /**
   * With all six operators in `ops`, an entry splits as deppy splits it, so
   * `Dependencies.ParseEntryParts` holds here too: the triple puts the entry
   * back together and the operator is empty exactly when none occurs.
   */
  lemma {:induction false} ParseDepEntryIsParseEntry(entry: string, scan: seq<Operator>, ops: seq<Operator>)
    requires forall op: Operator :: op in ops
    ensures ParseDepEntry(entry, scan, ops) == ParseEntry(entry, scan)
    decreases |scan|
  {
    if scan != [] {
      var index := Find(entry, scan[0].Symbol());
      if index >= 0 {
        SplitRequiredVersionsIsSplitRequire(entry[index..], ops);
      } else {
        ParseDepEntryIsParseEntry(entry, scan[1..], ops);
      }
    }
  }

  /**
   * `get_dependencies_from_file(path)`, given the keyword arguments the file
   * passes to `setup()` (`None` when loading it failed, which leaves no
   * dependencies): one triple per `install_requires` entry, in order, and the
   * package name, or the path when there is none. `OPS` is iterated in `ops`
   * order.
   */
  method GetDependenciesFromFile(args: Option<SetupArgs>, path: string, ops: seq<Operator>)
    returns (deps: seq<Dependency>, name: string)
    requires forall op: Operator :: op in ops
    ensures var entries := if args.Some? && args.value.installRequires.Some? then args.value.installRequires.value else [];
            |deps| == |entries| && forall i :: 0 <= i < |entries| ==> deps[i] == ParseEntry(entries[i], ops)
    ensures args.None? ==> deps == [] && name == path
    ensures name == if args.Some? && args.value.name.Some? then args.value.name.value else path
  {
    var entries := if args.Some? && args.value.installRequires.Some? then args.value.installRequires.value else [];
    deps := [];
    for i := 0 to |entries|
      invariant |deps| == i
      invariant forall k :: 0 <= k < i ==> deps[k] == ParseEntry(entries[k], ops)
    {
      ParseDepEntryIsParseEntry(entries[i], ops, ops);
      deps := deps + [ParseDepEntry(entries[i], ops, ops)];
    }
    name := if args.Some? && args.value.name.Some? then args.value.name.value else path;
  }

  /**
   * The edge list `rec_build_dep_tree` collects for a matching item: a
   * dependency without `key` or without `required_version` is skipped, a `null`
   * version becomes "", and names and versions are lower-cased.
   */
  method DepEdges(item: SourceItem) returns (edges: seq<Edge>)
    ensures edges == EdgesOf(DepVers, item)
  {
    edges := [];
    var ds := if item.dependencies.Some? then item.dependencies.value else [];
    for j := 0 to |ds|
      invariant edges == EdgesFrom(DepVers, ds[..j])
    {
      assert ds[..j + 1][..j] == ds[..j];
      var d := ds[j];
      if d.key.Some? && !d.requiredVersion.Absent? {
        var version := if d.requiredVersion.Given? then Lower(d.requiredVersion.text) else "";
        edges := edges + [Edge(Lower(d.key.value), version)];
      }
    }
    assert ds[..|ds|] == ds;
  }

  /**
   * `rec_build_dep_tree(dep_tree, dep_json, package_name, rec)`: the tree
   * after building the subtree of `name`; nothing happens when `rec` is 0 or
   * the lower-cased name is already a key.
   */
  method RecBuildDepTree(tree: Tree, src: seq<SourceItem>, name: string, rec: int) returns (r: Tree)
    ensures r == Build(DepVers, tree, src, name, rec)
    decreases Unvisited(src, tree), 1
  {
    var key := Lower(name);
    BuildUnfold(DepVers, tree, src, name, rec);
    if rec == 0 || key in tree {
      return tree;
    }
    r := tree;
    for i := 0 to |src|
      invariant tree.Keys <= r.Keys
      invariant Scan(DepVers, tree, r, src, i, key, rec) == Build(DepVers, tree, src, name, rec)
    {
      ScanUnfold(DepVers, tree, r, src, i, key, rec);
      if src[i].packageKey.Some? && Lower(src[i].packageKey.value) == key {
        r := RecordDepItem(tree, r, src, i, key, rec);
      }
    }
  }

  /** The branch of `rec_build_dep_tree` for an item describing the package: record its edges, then build every child with `rec - 1`. */
  method RecordDepItem(t0: Tree, t: Tree, src: seq<SourceItem>, i: nat, key: string, rec: int) returns (r: Tree)
    requires i < |src| && Matches(src[i], key)
    requires key !in t0 && t0.Keys <= t.Keys
    ensures r == DependencyTree.Record(DepVers, t0, t, src, i, key, rec)
    decreases Unvisited(src, t0), 0
  {
    var edges := DepEdges(src[i]);
    RecordUnfold(DepVers, t0, t, src, i, key, rec);
    ScanStepShrinks(src, t0, t, i, key, edges);
    var t1 := t[key := edges];
    r := t1;
    for j := 0 to |edges|
      invariant t1.Keys <= r.Keys
      invariant Expand(DepVers, r, src, edges, j, rec - 1) == Expand(DepVers, t1, src, edges, 0, rec - 1)
    {
      ExpandUnfold(DepVers, r, src, edges, j, rec - 1);
      UnvisitedMonotone(src, t1, r);
      r := RecBuildDepTree(r, src, edges[j].package, rec - 1);
    }
  }

  /** `build_dep_tree(package_name, rec)` given what `pipdeptree -j` printed; `None` when that failed. */
  method BuildDepTree(name: string, rec: int, output: Option<seq<SourceItem>>) returns (r: Option<Tree>)
    ensures r.None? <==> output.None?
    ensures r.Some? ==> r.value == Build(DepVers, map[], output.value, name, rec)
  {
    if output.None? {
      return None;
    }
    var tree := RecBuildDepTree(map[], output.value, name, rec);
    return Some(tree);
  }

  /** What `get_dependencies_for_package` returns when the tree was built. */
  datatype PackageDeps = PackageDeps(deps: Option<seq<Dependency>>, name: string)

  /**
   * `get_dependencies_for_package(package_name)`: the tree with `rec` 1, so
   * only the root's entry; `None` when it could not be built, no dependencies
   * when the name as given is not a key, else the root's edges as triples.
   */
  method GetDependenciesForPackage(name: string, output: Option<seq<SourceItem>>, ops: seq<Operator>) returns (r: Option<PackageDeps>)
    requires forall op: Operator :: op in ops
    ensures r.None? <==> output.None?
    ensures r.Some? ==> r.value.name == name
    ensures r.Some? ==>
              var tree := Build(DepVers, map[], output.value, name, 1);
              (r.value.deps.None? <==> name !in tree) &&
              (r.value.deps.Some? ==>
                 |r.value.deps.value| == |tree[name]| &&
                 forall k :: 0 <= k < |tree[name]| ==> r.value.deps.value[k] == EdgeDependency(tree[name][k]))
  {
    var tree := BuildDepTree(name, 1, output);
    if tree.None? {
      return None;
    }
    if name !in tree.value {
      return Some(PackageDeps(None, name));
    }
    var edges := tree.value[name];
    var list := [];
    for j := 0 to |edges|
      invariant |list| == j
      invariant forall k :: 0 <= k < j ==> list[k] == EdgeDependency(edges[k])
    {
      var split := SplitRequiredVersions(edges[j].require, ops);
      SplitRequiredVersionsIsSplitRequire(edges[j].require, ops);
      list := list + [Dependency(edges[j].package, split.0, split.1)];
    }
    return Some(PackageDeps(Some(list), name));
  }

  /**
   * The tree `get_dependencies_for_package` builds holds the root alone: the
   * edges of the last item describing it, or nothing when none does.
   */
  lemma PackageTreeIsRootOnly(src: seq<SourceItem>, name: string)
    ensures Build(DepVers, map[], src, name, 1).Keys <= {Lower(name)}
    ensures Lower(name) in Build(DepVers, map[], src, name, 1) <==> Lower(name) in SourceNames(src)
  {
    BuildRootOnly(DepVers, map[], src, name, 1);
    BuildRootRecorded(DepVers, src, name, 1);
  }

  /** A name holding an upper-case letter is never a key, so its dependencies are never found. */
  lemma MixedCasePackageNotFound(src: seq<SourceItem>, name: string)
    requires !IsLower(name)
    ensures name !in Build(DepVers, map[], src, name, 1)
  {
    BuildKeysLower(DepVers, src, name, 1);
  }
}

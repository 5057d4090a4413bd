/**
 * The dependency sources of deppy (`deppy/dependencies.py`): the requirement
 * list of a `setup()` call, split entry by entry, and the tree that `pipdeptree`
 * output describes, built depth-first into a map that is threaded through the
 * recursion.
 */
module Dependencies {
  import opened Wrappers
  import opened Text
  import opened Versions
  import opened DependencyTree

  /** A `(package, version, operator)` triple. */
  datatype Dependency = Dependency(package: string, version: string, operator: string)

  /** Stand-in for `consts.UNKNOWN`, the licence reported when none is known. */
  const Unknown: string := "UNKNOWN"

  /** The split of an entry at the index where an operator was found. */
  function SplitAt(entry: string, index: nat): Dependency
    requires index <= |entry|
  {
    var split := SplitRequire(entry[index..]);
    Dependency(entry[..index], split.0, split.1)
  }

  /**
   * The inner loop of `get_from_file` over one `install_requires` entry: the
   * operators are tried in `scan` order (the iteration order of `OPERATORS`)
   * and the first one found splits the entry at its index; with none found
   * the entry is all name.
   */
  function ParseEntry(entry: string, scan: seq<Operator>): Dependency {
    if scan == [] then Dependency(entry, "", "")
    else
      var index := Find(entry, scan[0].Symbol());
      if index >= 0 then SplitAt(entry, index) else ParseEntry(entry, scan[1..])
  }

  /** Some operator of `scan` occurs in the entry. */
  predicate SomeOperatorOccurs(entry: string, scan: seq<Operator>) {
    exists op :: op in scan && Find(entry, op.Symbol()) >= 0
  }

  /** An entry starting with an operator keeps a non-empty operator when split. */
  lemma SplitOfOperatorPrefix(rest: string, op: Operator)
    requires OccursAt(rest, op.Symbol(), 0)
    ensures OperatorOf(SplitRequire(rest).1).Some?
  {
    SplitRequireParts(rest);
    assert StartsWith(rest, op.Symbol()) by {
      assert rest[..|op.Symbol()|] == op.Symbol();
    }
  }

  /** The split at an occurrence of an operator puts the entry back together and keeps a non-empty operator. */
  lemma SplitAtOperator(entry: string, op: Operator, index: nat)
    requires OccursAt(entry, op.Symbol(), index)
    ensures SplitAt(entry, index).package + SplitAt(entry, index).operator + SplitAt(entry, index).version == entry
    ensures OperatorOf(SplitAt(entry, index).operator).Some?
  {
    var rest := entry[index..];
    OccursAtSuffix(entry, op.Symbol(), index);
    SplitOfOperatorPrefix(rest, op);
    SplitRequireParts(rest);
    var split := SplitRequire(rest);
    JoinAt(entry, index, split.1, split.0);
  }

  /** The name before `index` followed by a split of the rest is the entry again. */
  lemma JoinAt(entry: string, index: nat, operator: string, version: string)
    requires index <= |entry| && operator + version == entry[index..]
    ensures entry[..index] + operator + version == entry
  {
    assert entry[..index] + operator + version == entry[..index] + (operator + version);
    assert entry == entry[..index] + entry[index..];
  }

  /** An occurrence at `index` is an occurrence at the start of the suffix from `index`. */
  lemma OccursAtSuffix(s: string, sub: string, index: nat)
    requires OccursAt(s, sub, index)
    ensures OccursAt(s[index..], sub, 0)
  {
    forall j | 0 <= j < |sub|
      ensures s[index..][j] == sub[j]
    {
      assert s[index..][j] == s[index + j];
    }
  }

  /**
   * Whatever the scan order, the triple puts the entry back together, and the
   * operator is empty exactly when no operator of the scan occurs in the entry.
   */
  lemma {:induction false} ParseEntryParts(entry: string, scan: seq<Operator>)
    ensures ParseEntry(entry, scan).package + ParseEntry(entry, scan).operator + ParseEntry(entry, scan).version == entry
    ensures ParseEntry(entry, scan).operator == "" <==> !SomeOperatorOccurs(entry, scan)
    ensures ParseEntry(entry, scan).operator == "" ==> ParseEntry(entry, scan) == Dependency(entry, "", "")
    ensures ParseEntry(entry, scan).operator != "" ==> OperatorOf(ParseEntry(entry, scan).operator).Some?
    decreases |scan|
  {
    if scan == [] {
      assert entry + "" + "" == entry;
    } else {
      var index := Find(entry, scan[0].Symbol());
      if index >= 0 {
        SplitAtOperator(entry, scan[0], index);
      } else {
        ParseEntryParts(entry, scan[1..]);
        assert forall op :: op in scan ==> op == scan[0] || op in scan[1..];
      }
    }
  }

  /** The entry is split at the first index of one of the scan's operators that occurs in it. */
  lemma {:induction false} ParseEntrySplitsAtAnOperator(entry: string, scan: seq<Operator>)
    requires SomeOperatorOccurs(entry, scan)
    ensures exists op :: op in scan && Find(entry, op.Symbol()) >= 0 &&
                         ParseEntry(entry, scan) == SplitAt(entry, Find(entry, op.Symbol()))
    decreases |scan|
  {
    var index := Find(entry, scan[0].Symbol());
    if index >= 0 {
      assert ParseEntry(entry, scan) == SplitAt(entry, index);
      assert scan[0] in scan;
    } else {
      assert ParseEntry(entry, scan) == ParseEntry(entry, scan[1..]);
      var op :| op in scan && Find(entry, op.Symbol()) >= 0;
      assert op in scan[1..];
      ParseEntrySplitsAtAnOperator(entry, scan[1..]);
      var found :| found in scan[1..] && Find(entry, found.Symbol()) >= 0 &&
                   ParseEntry(entry, scan[1..]) == SplitAt(entry, Find(entry, found.Symbol()));
      assert found in scan;
    }
  }

  /**
   * The scan order does not matter when every operator occurring in the entry
   * first occurs at one index, as in a single-operator requirement such as
   * "requests>=2.0" (">" and ">=" both at 8).
   */
  lemma ParseEntryScanOrder(entry: string, scan1: seq<Operator>, scan2: seq<Operator>)
    requires forall op :: op in scan1 <==> op in scan2
    requires forall a: Operator, b: Operator :: Find(entry, a.Symbol()) >= 0 && Find(entry, b.Symbol()) >= 0 ==>
               Find(entry, a.Symbol()) == Find(entry, b.Symbol())
    ensures ParseEntry(entry, scan1) == ParseEntry(entry, scan2)
  {
    ParseEntryParts(entry, scan1);
    ParseEntryParts(entry, scan2);
    if SomeOperatorOccurs(entry, scan1) {
      ParseEntrySplitsAtAnOperator(entry, scan1);
      ParseEntrySplitsAtAnOperator(entry, scan2);
    }
  }

  /** The keyword arguments of the `setup()` call that matter here; `None` marks a missing keyword. */
  datatype SetupArgs = SetupArgs(installRequires: Option<seq<string>>, name: Option<string>, license: Option<string>)

  /**
   * `get_from_file`, given the `setup()` keyword arguments the file passes: one
   * triple per `install_requires` entry, in order, the package name (the path
   * when `name` is missing) and the licence (`UNKNOWN` when missing).
   */
  method GetFromFile(args: SetupArgs, path: string, scan: seq<Operator>)
    returns (deps: seq<Dependency>, name: string, license: string)
    ensures var entries := if args.installRequires.Some? then args.installRequires.value else [];
            |deps| == |entries| && forall i :: 0 <= i < |entries| ==> deps[i] == ParseEntry(entries[i], scan)
    ensures name == if args.name.Some? then args.name.value else path
    ensures license == if args.license.Some? then args.license.value else Unknown
  {
    var entries := if args.installRequires.Some? then args.installRequires.value else [];
    deps := [];
    for i := 0 to |entries|
      invariant |deps| == i
      invariant forall k :: 0 <= k < i ==> deps[k] == ParseEntry(entries[k], scan)
    {
      deps := deps + [ParseEntry(entries[i], scan)];
    }
    name := if args.name.Some? then args.name.value else path;
    license := if args.license.Some? then args.license.value else Unknown;
  }

  /**
   * The edge list `_rec_build_tree` collects for a matching item: a dependency
   * without `key` is skipped, a missing or `null` version becomes "", and names
   * and versions are lower-cased.
   */
  method DependencyEdges(item: SourceItem) returns (edges: seq<Edge>)
    ensures edges == EdgesOf(Deppy, item)
  {
    edges := [];
    var ds := if item.dependencies.Some? then item.dependencies.value else [];
    for j := 0 to |ds|
      invariant edges == EdgesFrom(Deppy, ds[..j])
    {
      assert ds[..j + 1][..j] == ds[..j];
      var d := ds[j];
      if d.key.Some? {
        var version := if d.requiredVersion.Given? then Lower(d.requiredVersion.text) else "";
        edges := edges + [Edge(Lower(d.key.value), version)];
      }
    }
    assert ds[..|ds|] == ds;
  }

  /**
   * `_rec_build_tree(dependencies_tree, dependencies_dict, package_name, depth)`:
   * the tree, threaded through the recursion, after building the subtree of
   * `name`. Every item describing the lower-cased name is recorded in turn, so
   * the last one wins.
   */
  method RecBuildTree(tree: Tree, src: seq<SourceItem>, name: string, depth: int) returns (r: Tree)
    ensures r == Build(Deppy, tree, src, name, depth)
    decreases Unvisited(src, tree), 1
  {
    var key := Lower(name);
    BuildUnfold(Deppy, tree, src, name, depth);
    if key in tree {
      return tree;
    }
    r := tree;
    for i := 0 to |src|
      invariant tree.Keys <= r.Keys
      invariant Scan(Deppy, tree, r, src, i, key, depth) == Build(Deppy, tree, src, name, depth)
    {
      ScanUnfold(Deppy, tree, r, src, i, key, depth);
      if src[i].packageKey.Some? && Lower(src[i].packageKey.value) == key {
        r := RecordItem(tree, r, src, i, key, depth);
      }
    }
  }

  /**
   * The branch of `_rec_build_tree` for an item describing the package: record
   * its edge list, then, unless the depth is 0, build each child's subtree with
   * one less depth. `t0` is the tree the call started from.
   */
  method RecordItem(t0: Tree, t: Tree, src: seq<SourceItem>, i: nat, key: string, depth: int) returns (r: Tree)
    requires i < |src| && Matches(src[i], key)
    requires key !in t0 && t0.Keys <= t.Keys
    ensures r == DependencyTree.Record(Deppy, t0, t, src, i, key, depth)
    decreases Unvisited(src, t0), 0
  {
    var edges := DependencyEdges(src[i]);
    RecordUnfold(Deppy, t0, t, src, i, key, depth);
    ScanStepShrinks(src, t0, t, i, key, edges);
    var t1 := t[key := edges];
    r := t1;
    if depth != 0 {
      for j := 0 to |edges|
        invariant t1.Keys <= r.Keys
        invariant Expand(Deppy, r, src, edges, j, depth - 1) == Expand(Deppy, t1, src, edges, 0, depth - 1)
      {
        ExpandUnfold(Deppy, r, src, edges, j, depth - 1);
        UnvisitedMonotone(src, t1, r);
        r := RecBuildTree(r, src, edges[j].package, depth - 1);
      }
    }
  }

  /**
   * `build_tree(package_name, depth)` given what `pipdeptree -j` printed:
   * `None` when running it or parsing its output failed.
   */
  method BuildTree(name: string, depth: int, output: Option<seq<SourceItem>>) returns (r: Option<Tree>)
    ensures r.None? <==> output.None?
    ensures r.Some? ==> r.value == Build(Deppy, map[], output.value, name, depth)
  {
    if output.None? {
      return None;
    }
    var tree := RecBuildTree(map[], output.value, name, depth);
    return Some(tree);
  }

  /** What `get_for_package` returns when the tree was built: the dependencies (`None` when the package is not a key), the name and the licence. */
  datatype PackageDependencies = PackageDependencies(deps: Option<seq<Dependency>>, name: string, license: string)

  /** The triple an edge of the tree becomes. */
  function EdgeDependency(e: Edge): Dependency {
    var split := SplitRequire(e.require);
    Dependency(e.package, split.0, split.1)
  }

  /** The triple keeps the edge's package, and its operator and version put the edge's requirement back together. */
  lemma EdgeDependencyParts(e: Edge)
    ensures EdgeDependency(e).package == e.package
    ensures EdgeDependency(e).operator + EdgeDependency(e).version == e.require
    ensures EdgeDependency(e).operator == "" || OperatorOf(EdgeDependency(e).operator).Some?
  {
    SplitRequireParts(e.require);
  }

  /**
   * The loop of `get_for_package` over the entry of `key`: `None` when the key
   * is missing, else one triple per edge, in order, whose operator and version
   * put the edge's requirement back together.
   */
  method TreeDependencies(tree: Tree, key: string) returns (deps: Option<seq<Dependency>>)
    ensures deps.None? <==> key !in tree
    ensures deps.Some? ==> |deps.value| == |tree[key]|
    ensures deps.Some? ==> forall k :: 0 <= k < |tree[key]| ==> deps.value[k] == EdgeDependency(tree[key][k])
  {
    if key !in tree {
      return None;
    }
    var edges := tree[key];
    var list := [];
    for j := 0 to |edges|
      invariant |list| == j
      invariant forall k :: 0 <= k < j ==> list[k] == EdgeDependency(edges[k])
    {
      var split := SplitRequire(edges[j].require);
      list := list + [Dependency(edges[j].package, split.0, split.1)];
    }
    return Some(list);
  }

  /**
   * `get_for_package(package_name, depth)` as written: `None` when the tree
   * could not be built; otherwise the root's edges as triples, looked up under
   * the name as given. The tree's keys are lower-cased, so a name with an
   * upper-case letter is never found.
   */
  method GetForPackage(name: string, depth: int, output: Option<seq<SourceItem>>) returns (r: Option<PackageDependencies>)
    ensures r.None? <==> output.None?
    ensures r.Some? ==> r.value.name == name && r.value.license == Unknown
    ensures r.Some? ==>
              var tree := Build(Deppy, map[], output.value, name, depth);
              (r.value.deps.None? <==> name !in tree) &&
              (r.value.deps.Some? ==>
                 |r.value.deps.value| == |tree[name]| &&
                 forall k :: 0 <= k < |tree[name]| ==> r.value.deps.value[k] == EdgeDependency(tree[name][k]))
  {
    var tree := BuildTree(name, depth, output);
    if tree.None? {
      return None;
    }
    var deps := TreeDependencies(tree.value, name);
    return Some(PackageDependencies(deps, name, Unknown));
  }

  /** With the lookup as written, a name holding an upper-case letter never has dependencies, even when it is installed. */
  lemma MixedCaseNameNotFound(src: seq<SourceItem>, name: string, depth: int)
    requires !IsLower(name)
    ensures name !in Build(Deppy, map[], src, name, depth)
  {
    BuildKeysLower(Deppy, src, name, depth);
  }

  /** An installed package asked for as "Django": the tree has its entry under "django", and the lookup as written misses it. */
  lemma MixedCaseExample()
    ensures var src := [SourceItem(Some("django"), Some([]))];
            var tree := Build(Deppy, map[], src, "Django", 0);
            "django" in tree && "Django" !in tree
  {
    var src := [SourceItem(Some("django"), Some([]))];
    assert Lower("Django") == "django";
    assert "django" in SourceNames(src) by {
      assert Lower(src[0].packageKey.value) == "django";
    }
    BuildRootRecorded(Deppy, src, "Django", 0);
    assert !IsLower("Django") by {
      assert IsUpperLetter("Django"[0]);
    }
    MixedCaseNameNotFound(src, "Django", 0);
  }

  /** The `pipdeptree` output of the diamond fixture: a needs b and c, both need d, d needs e, and f (not reachable) needs b. */
  function DiamondSource(): seq<SourceItem> {
    [SourceItem(Some("a"), Some([RawDependency(Some("b"), Given("==3")), RawDependency(Some("c"), Given(">2"))])),
     SourceItem(Some("b"), Some([RawDependency(Some("d"), Given(""))])),
     SourceItem(Some("c"), Some([RawDependency(Some("d"), Given(""))])),
     SourceItem(Some("d"), Some([RawDependency(Some("e"), Absent)])),
     SourceItem(Some("e"), Some([])),
     SourceItem(Some("f"), Some([RawDependency(Some("b"), Given("==1"))]))]
  }

  /** The tree the fixture expects from `build_tree('a')`. */
  function DiamondTree(): Tree {
    map["a" := [Edge("b", "==3"), Edge("c", ">2")],
        "b" := [Edge("d", "")],
        "c" := [Edge("d", "")],
        "d" := [Edge("e", "")],
        "e" := []]
  }

  lemma DiamondNames()
    ensures var src := DiamondSource();
            forall i :: 0 <= i < |src| ==> src[i].packageKey.Some? && Lower(src[i].packageKey.value) == ["a", "b", "c", "d", "e", "f"][i]
  {
    assert Lower("a") == "a" && Lower("b") == "b" && Lower("c") == "c";
    assert Lower("d") == "d" && Lower("e") == "e" && Lower("f") == "f";
  }

  lemma EdgesOfOne(d: RawDependency, e: Edge)
    requires EdgeOf(Deppy, d) == Some(e)
    ensures EdgesFrom(Deppy, [d]) == [e]
  {
    assert [d][..0] == [];
  }

  lemma EdgesOfTwo(d1: RawDependency, e1: Edge, d2: RawDependency, e2: Edge)
    requires EdgeOf(Deppy, d1) == Some(e1) && EdgeOf(Deppy, d2) == Some(e2)
    ensures EdgesFrom(Deppy, [d1, d2]) == [e1, e2]
  {
    assert [d1, d2][..1] == [d1];
    EdgesOfOne(d1, e1);
  }

  /** A dependency with key `k` and version `v`, both already lower-case, gives the edge `(k, v)`. */
  lemma EdgeOfLower(k: string, v: VersionField, require: string)
    requires IsLower(k) && (v.Given? ==> IsLower(v.text) && require == v.text) && (!v.Given? ==> require == "")
    ensures EdgeOf(Deppy, RawDependency(Some(k), v)) == Some(Edge(k, require))
  {
    LowerOfLower(k);
    if v.Given? {
      LowerOfLower(v.text);
    }
  }

  lemma DiamondEdgesRoot()
    ensures EdgesOf(Deppy, DiamondSource()[0]) == [Edge("b", "==3"), Edge("c", ">2")]
  {
    EdgeOfLower("b", Given("==3"), "==3");
    EdgeOfLower("c", Given(">2"), ">2");
    EdgesOfTwo(RawDependency(Some("b"), Given("==3")), Edge("b", "==3"), RawDependency(Some("c"), Given(">2")), Edge("c", ">2"));
  }

  lemma DiamondEdgesInner()
    ensures var src := DiamondSource();
            EdgesOf(Deppy, src[1]) == [Edge("d", "")] && EdgesOf(Deppy, src[2]) == [Edge("d", "")]
            && EdgesOf(Deppy, src[3]) == [Edge("e", "")] && EdgesOf(Deppy, src[4]) == []
  {
    EdgeOfLower("d", Given(""), "");
    EdgesOfOne(RawDependency(Some("d"), Given("")), Edge("d", ""));
    EdgeOfLower("e", Absent, "");
    EdgesOfOne(RawDependency(Some("e"), Absent), Edge("e", ""));
  }

  lemma DiamondEdgesStray()
    ensures EdgesOf(Deppy, DiamondSource()[5]) == [Edge("b", "==1")]
  {
    EdgeOfLower("b", Given("==1"), "==1");
    EdgesOfOne(RawDependency(Some("b"), Given("==1")), Edge("b", "==1"));
  }

  /** The names the fixture's items describe, in order. */
  ghost predicate DiamondNamed(src: seq<SourceItem>) {
    && |src| == 6
    && forall i :: 0 <= i < |src| ==> src[i].packageKey.Some? && Lower(src[i].packageKey.value) == ["a", "b", "c", "d", "e", "f"][i]
  }

  /** The edge lists of the fixture's items. */
  ghost predicate DiamondEdged(src: seq<SourceItem>) {
    && |src| == 6
    && EdgesOf(Deppy, src[0]) == [Edge("b", "==3"), Edge("c", ">2")]
    && EdgesOf(Deppy, src[1]) == [Edge("d", "")] && EdgesOf(Deppy, src[2]) == [Edge("d", "")]
    && EdgesOf(Deppy, src[3]) == [Edge("e", "")] && EdgesOf(Deppy, src[4]) == []
    && EdgesOf(Deppy, src[5]) == [Edge("b", "==1")]
  }

  lemma DiamondShape()
    ensures DiamondNamed(DiamondSource()) && DiamondEdged(DiamondSource())
  {
    DiamondNames();
    DiamondEdgesRoot();
    DiamondEdgesInner();
    DiamondEdgesStray();
  }

  /** Every edge of the fixture leads to b, c, d or e: nothing leads to f. */
  lemma DiamondTargets(src: seq<SourceItem>)
    requires DiamondEdged(src)
    ensures forall i, e :: 0 <= i < |src| && e in EdgesOf(Deppy, src[i]) ==> e.package in {"b", "c", "d", "e"}
  {
    forall i, e | 0 <= i < |src| && e in EdgesOf(Deppy, src[i])
      ensures e.package in {"b", "c", "d", "e"}
    {
      if i == 0 {
        assert e in [Edge("b", "==3"), Edge("c", ">2")];
      } else if i == 1 || i == 2 {
        assert e in [Edge("d", "")];
      } else if i == 3 {
        assert e in [Edge("e", "")];
      } else if i == 5 {
        assert e in [Edge("b", "==1")];
      }
    }
  }

  /** Only a, b, c, d and e are built: the root and the targets of the fixture's edges. */
  lemma DiamondKeys(src: seq<SourceItem>, name: string, depth: int, r: Tree)
    requires DiamondEdged(src) && depth < 0 && Lower(name) == "a" && r == Build(Deppy, map[], src, name, depth)
    ensures forall k :: k in r ==> k == "a" || k == "b" || k == "c" || k == "d" || k == "e"
  {
    BuildKeysAreTargets(Deppy, src, name, depth);
    DiamondTargets(src);
    forall k | k in r
      ensures k == "a" || k == "b" || k == "c" || k == "d" || k == "e"
    {
      if k != Lower(name) {
        var i, e :| 0 <= i < |src| && e in EdgesOf(Deppy, src[i]) && k == Lower(e.package);
        LowerOfLower(e.package);
      }
    }
  }

  /** Each expected key that is built holds its own item's edges. */
  lemma DiamondEntries(src: seq<SourceItem>, name: string, depth: int, r: Tree)
    requires DiamondNamed(src) && DiamondEdged(src) && depth < 0 && Lower(name) == "a" && r == Build(Deppy, map[], src, name, depth)
    ensures "a" in r ==> r["a"] == [Edge("b", "==3"), Edge("c", ">2")]
    ensures "b" in r ==> r["b"] == [Edge("d", "")]
    ensures "c" in r ==> r["c"] == [Edge("d", "")]
    ensures "d" in r ==> r["d"] == [Edge("e", "")]
    ensures "e" in r ==> r["e"] == []
  {
    DiamondLastMatches(src);
    if "a" in r { BuildEntryOf(Deppy, src, name, depth, 0, "a"); }
    if "b" in r { BuildEntryOf(Deppy, src, name, depth, 1, "b"); }
    if "c" in r { BuildEntryOf(Deppy, src, name, depth, 2, "c"); }
    if "d" in r { BuildEntryOf(Deppy, src, name, depth, 3, "d"); }
    if "e" in r { BuildEntryOf(Deppy, src, name, depth, 4, "e"); }
  }

  lemma DiamondLastMatches(src: seq<SourceItem>)
    requires DiamondNamed(src)
    ensures LastMatch(src, 0, "a") && LastMatch(src, 1, "b") && LastMatch(src, 2, "c")
    ensures LastMatch(src, 3, "d") && LastMatch(src, 4, "e")
  {
    var names := ["a", "b", "c", "d", "e", "f"];
    forall i, j | 0 <= i < j < |names|
      ensures names[i] != names[j]
    {
      assert names[i][0] != names[j][0];
    }
    LastMatchesOfDistinct(src, names);
    assert LastMatch(src, 0, names[0]) && LastMatch(src, 1, names[1]) && LastMatch(src, 2, names[2]);
    assert LastMatch(src, 3, names[3]) && LastMatch(src, 4, names[4]);
  }

  lemma DiamondDescribed(src: seq<SourceItem>)
    requires DiamondNamed(src)
    ensures "a" in SourceNames(src) && "b" in SourceNames(src) && "c" in SourceNames(src)
    ensures "d" in SourceNames(src) && "e" in SourceNames(src)
  {
    assert Lower(src[0].packageKey.value) == "a" && Lower(src[1].packageKey.value) == "b";
    assert Lower(src[2].packageKey.value) == "c" && Lower(src[3].packageKey.value) == "d";
    assert Lower(src[4].packageKey.value) == "e";
  }

  /** Every key the fixture expects is built: the root, and along the edges b, c, d and e. */
  lemma DiamondAllBuilt(src: seq<SourceItem>, name: string, depth: int, r: Tree)
    requires DiamondNamed(src) && DiamondEdged(src) && depth < 0 && Lower(name) == "a" && r == Build(Deppy, map[], src, name, depth)
    ensures "a" in r && "b" in r && "c" in r && "d" in r && "e" in r
  {
    DiamondLastMatches(src);
    DiamondDescribed(src);
    assert Lower("b") == "b" && Lower("c") == "c" && Lower("d") == "d" && Lower("e") == "e";
    BuildRootRecorded(Deppy, src, name, depth);
    UnlimitedEdgeBuilt(Deppy, src, name, depth, "a", 0, Edge("b", "==3"));
    UnlimitedEdgeBuilt(Deppy, src, name, depth, "a", 0, Edge("c", ">2"));
    UnlimitedEdgeBuilt(Deppy, src, name, depth, "b", 1, Edge("d", ""));
    UnlimitedEdgeBuilt(Deppy, src, name, depth, "d", 3, Edge("e", ""));
  }

  /** A tree whose keys are five given names, each with a given entry, is the map of those five. */
  lemma FiveKeyTree(r: Tree, k1: string, k2: string, k3: string, k4: string, k5: string,
                    v1: seq<Edge>, v2: seq<Edge>, v3: seq<Edge>, v4: seq<Edge>, v5: seq<Edge>)
    requires k1 != k2 && k1 != k3 && k1 != k4 && k1 != k5 && k2 != k3 && k2 != k4 && k2 != k5
    requires k3 != k4 && k3 != k5 && k4 != k5
    requires forall k :: k in r ==> k == k1 || k == k2 || k == k3 || k == k4 || k == k5
    requires k1 in r && k2 in r && k3 in r && k4 in r && k5 in r
    requires r[k1] == v1 && r[k2] == v2 && r[k3] == v3 && r[k4] == v4 && r[k5] == v5
    ensures r == map[k1 := v1, k2 := v2, k3 := v3, k4 := v4, k5 := v5]
  {
  }

  /**
   * The diamond fixture: building from "a" with unlimited depth records a, b,
   * c, d and e, each with its own item's edges (b and c both keep their edge
   * to d, though d is built once), and leaves out f, which nothing reaches.
   */
  lemma DiamondExample()
    ensures Build(Deppy, map[], DiamondSource(), "a", -1) == DiamondTree()
  {
    var src := DiamondSource();
    var r := Build(Deppy, map[], src, "a", -1);
    DiamondShape();
    LowerOfLower("a");
    DiamondKeys(src, "a", -1, r);
    DiamondEntries(src, "a", -1, r);
    DiamondAllBuilt(src, "a", -1, r);
    FiveKeyTree(r, "a", "b", "c", "d", "e",
                [Edge("b", "==3"), Edge("c", ">2")], [Edge("d", "")], [Edge("d", "")], [Edge("e", "")], []);
  }

  /**
   * `get_for_package` with the lookup under the lower-cased name, the key the
   * builder uses: the dependencies are present exactly when some item of the
   * `pipdeptree` output describes the package.
   */
  method GetForPackageLowered(name: string, depth: int, output: Option<seq<SourceItem>>) returns (r: Option<PackageDependencies>)
    ensures r.None? <==> output.None?
    ensures r.Some? ==> r.value.name == name && r.value.license == Unknown
    ensures r.Some? ==> (r.value.deps.Some? <==> Lower(name) in SourceNames(output.value))
    ensures r.Some? ==>
              var tree := Build(Deppy, map[], output.value, name, depth);
              r.value.deps.Some? ==>
                Lower(name) in tree && |r.value.deps.value| == |tree[Lower(name)]| &&
                forall k :: 0 <= k < |tree[Lower(name)]| ==> r.value.deps.value[k] == EdgeDependency(tree[Lower(name)][k])
  {
    var tree := BuildTree(name, depth, output);
    if tree.None? {
      return None;
    }
    BuildRootRecorded(Deppy, output.value, name, depth);
    var deps := TreeDependencies(tree.value, Lower(name));
    return Some(PackageDependencies(deps, name, Unknown));
  }
}

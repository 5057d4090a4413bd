/**
 * The sub-commands of `deppy/deppy.py` (`seekup`, `licenses`,
 * `show_package`) as folds over what their collaborators return: the
 * per-manifest triples of the chosen input type, the PyPI answers of the
 * fan-out, and the `pipdeptree` output.
 */
module Commands {
  import opened Wrappers
  import opened Text
  import opened Versions
  import opened DependencyTree
  import opened Dependencies
  import opened VersGetter
  import opened Grouping

  /**
   * `_set_default_kwargs(kwargs, defaults)`: every default whose key is
   * missing is added; no key already present changes. The result is the
   * dictionary `defaults` overridden by `kwargs`.
   */
  method SetDefaultKwargs<V>(kwargs: map<string, V>, defaults: map<string, V>) returns (r: map<string, V>)
    ensures r.Keys == kwargs.Keys + defaults.Keys
    ensures forall k :: k in kwargs ==> r[k] == kwargs[k]
    ensures forall k :: k in defaults && k !in kwargs ==> r[k] == defaults[k]
  {
    r := kwargs;
    var rest := defaults.Keys;
    while rest != {}
      invariant rest <= defaults.Keys
      invariant forall k :: k in kwargs ==> k in r
      invariant forall k :: k in defaults && k !in rest ==> k in r
      invariant forall k :: k in r ==> k in kwargs || (k in defaults && k !in rest)
      invariant forall k :: k in kwargs ==> r[k] == kwargs[k]
      invariant forall k :: k in r && k !in kwargs ==> r[k] == defaults[k]
      decreases |rest|
    {
      var default :| default in rest;
      if default !in r {
        r := r[default := defaults[default]];
      }
      rest := rest - {default};
    }
  }

  /** One `(dependencies, module, license)` triple of the chosen input type. */
  datatype Manifest = Manifest(deps: seq<Dependency>, moduleName: string, license: string)

  /** One dependency as the aggregation meets it: package, `operator + version`, declaring module. */
  datatype Occurrence = Occurrence(package: string, require: string, moduleName: string)

  function ManifestOccurrences(m: Manifest): (occ: seq<Occurrence>)
    ensures |occ| == |m.deps|
  {
    seq(|m.deps|, k requires 0 <= k < |m.deps| => Occurrence(m.deps[k].package, m.deps[k].operator + m.deps[k].version, m.moduleName))
  }

  /** The dependencies of the manifests in the order the nested loops meet them. */
  function Occurrences(ms: seq<Manifest>): seq<Occurrence> {
    if ms == [] then []
    else Occurrences(ms[..|ms| - 1]) + ManifestOccurrences(ms[|ms| - 1])
  }

  /** The `(package, operator + version)` pairs `dependencies_dict` is grouped from. */
  function RequirePairs(occ: seq<Occurrence>): (pairs: seq<(string, string)>)
    ensures |pairs| == |occ|
  {
    seq(|occ|, i requires 0 <= i < |occ| => (occ[i].package, occ[i].require))
  }

  /** An entry of `modules_dict`: the declaring module, or the `(package, operator + version)` pair in by-module mode. */
  datatype CrossRef = DeclaredIn(moduleName: string) | Requires(package: string, require: string)

  /** The key and the item `modules_dict` gets for one dependency. */
  function CrossRefPair(o: Occurrence, byModule: bool): (string, CrossRef) {
    if byModule then (o.moduleName, Requires(o.package, o.require))
    else (o.package + o.require, DeclaredIn(o.moduleName))
  }

  function CrossRefPairs(occ: seq<Occurrence>, byModule: bool): (pairs: seq<(string, CrossRef)>)
    ensures |pairs| == |occ|
  {
    seq(|occ|, i requires 0 <= i < |occ| => CrossRefPair(occ[i], byModule))
  }

  /** Meeting one more dependency is one step of each grouping. */
  lemma CollectStep(seen: seq<Occurrence>, o: Occurrence, byModule: bool)
    ensures Group(RequirePairs(seen + [o]), true) == AddTo(Group(RequirePairs(seen), true), o.package, o.require, true)
    ensures var p := CrossRefPair(o, byModule);
            Group(CrossRefPairs(seen + [o], byModule), false) == AddTo(Group(CrossRefPairs(seen, byModule), false), p.0, p.1, false)
  {
    assert RequirePairs(seen + [o]) == RequirePairs(seen) + [(o.package, o.require)];
    assert CrossRefPairs(seen + [o], byModule) == CrossRefPairs(seen, byModule) + [CrossRefPair(o, byModule)];
    GroupSnoc(RequirePairs(seen), o.package, o.require, true);
    var p := CrossRefPair(o, byModule);
    GroupSnoc(CrossRefPairs(seen, byModule), p.0, p.1, false);
  }

  lemma SeenStep(seen: seq<Occurrence>, occ: seq<Occurrence>, j: nat)
    requires j < |occ|
    ensures seen + occ[..j + 1] == (seen + occ[..j]) + [occ[j]]
  {
    assert occ[..j + 1] == occ[..j] + [occ[j]];
  }

  lemma OccurrencesStep(ms: seq<Manifest>, i: nat)
    requires i < |ms|
    ensures Occurrences(ms[..i + 1]) == Occurrences(ms[..i]) + ManifestOccurrences(ms[i])
  {
    assert ms[..i + 1][..i] == ms[..i];
  }

  /**
   * The update `seekup` makes to `dependencies_dict` and `licenses` to
   * `licenses_dict` and `illegitimate_licenses`: start the key's list if
   * needed, then append the value unless the list holds it.
   */
  method AddOnce(d: map<string, seq<string>>, key: string, value: string) returns (r: map<string, seq<string>>)
    ensures r == AddTo(d, key, value, true)
  {
    r := d;
    if key !in r {
      r := r[key := []];
    }
    if value !in r[key] {
      r := r[key := r[key] + [value]];
    }
  }

  /** The `modules_dict` update of `seekup`: the item is appended, repetitions kept. */
  method AppendItem<V(==, !new)>(modules: map<string, seq<V>>, key: string, item: V) returns (r: map<string, seq<V>>)
    ensures r == AddTo(modules, key, item, false)
  {
    r := modules;
    if key !in r {
      r := r[key := []];
    }
    r := r[key := r[key] + [item]];
  }

  /**
   * The inner loop of `seekup` over one manifest's dependencies, continuing
   * the two groupings of the occurrences `seen` before it.
   */
  method CollectManifest(deps0: map<string, seq<string>>, modules0: map<string, seq<CrossRef>>, m: Manifest, byModule: bool, ghost seen: seq<Occurrence>)
    returns (deps: map<string, seq<string>>, modules: map<string, seq<CrossRef>>)
    requires deps0 == Group(RequirePairs(seen), true)
    requires modules0 == Group(CrossRefPairs(seen, byModule), false)
    ensures deps == Group(RequirePairs(seen + ManifestOccurrences(m)), true)
    ensures modules == Group(CrossRefPairs(seen + ManifestOccurrences(m), byModule), false)
  {
    deps, modules := deps0, modules0;
    ghost var occ := ManifestOccurrences(m);
    assert seen + occ[..0] == seen;
    for j := 0 to |m.deps|
      invariant deps == Group(RequirePairs(seen + occ[..j]), true)
      invariant modules == Group(CrossRefPairs(seen + occ[..j], byModule), false)
    {
      var d := m.deps[j];
      var require := d.operator + d.version;
      assert occ[j] == Occurrence(d.package, require, m.moduleName);
      CollectStep(seen + occ[..j], occ[j], byModule);
      SeenStep(seen, occ, j);
      deps := AddOnce(deps, d.package, require);
      var key, item;
      if byModule {
        key, item := m.moduleName, Requires(d.package, require);
      } else {
        key, item := d.package + require, DeclaredIn(m.moduleName);
      }
      modules := AppendItem(modules, key, item);
    }
    assert occ[..|m.deps|] == occ;
  }

  /**
   * The nested loops of `seekup` that fill `dependencies_dict` (each
   * package's distinct requirement strings, first seen first) and
   * `modules_dict` (the cross-reference, with repetitions).
   */
  method Collect(ms: seq<Manifest>, byModule: bool) returns (deps: map<string, seq<string>>, modules: map<string, seq<CrossRef>>)
    ensures deps == Group(RequirePairs(Occurrences(ms)), true)
    ensures modules == Group(CrossRefPairs(Occurrences(ms), byModule), false)
  {
    deps, modules := map[], map[];
    for i := 0 to |ms|
      invariant deps == Group(RequirePairs(Occurrences(ms[..i])), true)
      invariant modules == Group(CrossRefPairs(Occurrences(ms[..i]), byModule), false)
    {
      OccurrencesStep(ms, i);
      deps, modules := CollectManifest(deps, modules, ms[i], byModule, Occurrences(ms[..i]));
    }
    assert ms[..|ms|] == ms;
  }

  /** Every occurrence comes from one dependency of one manifest, and every dependency gives one. */
  lemma {:induction false} OccurrencesMembership(ms: seq<Manifest>)
    ensures forall o :: o in Occurrences(ms) <==>
              exists i, k :: 0 <= i < |ms| && 0 <= k < |ms[i].deps| && o == ManifestOccurrences(ms[i])[k]
    ensures Occurrences(ms) == [] <==> forall i :: 0 <= i < |ms| ==> ms[i].deps == []
    decreases |ms|
  {
    if ms != [] {
      var init := ms[..|ms| - 1];
      OccurrencesMembership(init);
      assert forall i :: 0 <= i < |init| ==> init[i] == ms[i];
    }
  }

  lemma RequirePairsMembership(occ: seq<Occurrence>)
    ensures forall p, r :: (p, r) in RequirePairs(occ) <==> exists o :: o in occ && o.package == p && o.require == r
  {
    var pairs := RequirePairs(occ);
    forall p, r
      ensures (p, r) in pairs <==> exists o :: o in occ && o.package == p && o.require == r
    {
      if (p, r) in pairs {
        var i :| 0 <= i < |pairs| && pairs[i] == (p, r);
        assert occ[i] in occ && occ[i].package == p && occ[i].require == r;
      } else {
        forall o | o in occ
          ensures !(o.package == p && o.require == r)
        {
          var i :| 0 <= i < |occ| && occ[i] == o;
          assert pairs[i] == (o.package, o.require);
        }
      }
    }
  }

  /**
   * What `dependencies_dict` holds: each package maps to distinct
   * requirement strings, never to an empty list, and the dictionary is
   * empty exactly when no dependency was declared.
   */
  lemma RequirementsGrouped(occ: seq<Occurrence>)
    ensures forall p :: p in Group(RequirePairs(occ), true) ==>
              Group(RequirePairs(occ), true)[p] != [] && NoDuplicates(Group(RequirePairs(occ), true)[p])
    ensures Group(RequirePairs(occ), true) == map[] <==> occ == []
  {
    GroupMembership(RequirePairs(occ), true);
    GroupNonEmpty(RequirePairs(occ), true);
  }

  /** A package is grouped with a requirement string exactly when some manifest declares the package with it. */
  lemma RequirementDeclared(occ: seq<Occurrence>, p: string, r: string)
    ensures var deps := Group(RequirePairs(occ), true);
            p in deps && r in deps[p] <==> exists o :: o in occ && o.package == p && o.require == r
  {
    GroupMembership(RequirePairs(occ), true);
    RequirePairsMembership(occ);
  }

  /**
   * What `modules_dict` holds: under each key, every item a dependency
   * declares there; it is empty exactly when no dependency was declared.
   */
  lemma CrossRefsGrouped(occ: seq<Occurrence>, byModule: bool)
    ensures var modules := Group(CrossRefPairs(occ, byModule), false);
            (forall key, item :: key in modules && item in modules[key] <==> exists o :: o in occ && CrossRefPair(o, byModule) == (key, item)) &&
            (modules == map[] <==> occ == [])
  {
    var pairs := CrossRefPairs(occ, byModule);
    GroupMembership(pairs, false);
    forall key, item
      ensures (key, item) in pairs <==> exists o :: o in occ && CrossRefPair(o, byModule) == (key, item)
    {
      if exists o :: o in occ && CrossRefPair(o, byModule) == (key, item) {
        var o :| o in occ && CrossRefPair(o, byModule) == (key, item);
        var i :| 0 <= i < |occ| && occ[i] == o;
        assert pairs[i] == (key, item);
      }
    }
    if occ != [] {
      assert pairs[0].0 in KeysOf(pairs);
    }
  }

  /** Two manifests that both require `package7>2`. */
  const ExampleManifests: seq<Manifest> :=
    [Manifest([Dependency("package7", "2", ">"), Dependency("package2", "", "")], "package6", Unknown),
     Manifest([Dependency("package7", "2", ">"), Dependency("package9", "1", "==")], "package8", Unknown)]

  lemma ExampleOccurrences()
    ensures Occurrences(ExampleManifests) ==
              [Occurrence("package7", ">2", "package6"), Occurrence("package2", "", "package6"),
               Occurrence("package7", ">2", "package8"), Occurrence("package9", "==1", "package8")]
  {
    var ms := ExampleManifests;
    assert ">" + "2" == ">2" && "==" + "1" == "==1" && "" + "" == "";
    assert ManifestOccurrences(ms[0]) == [Occurrence("package7", ">2", "package6"), Occurrence("package2", "", "package6")];
    assert ManifestOccurrences(ms[1]) == [Occurrence("package7", ">2", "package8"), Occurrence("package9", "==1", "package8")];
    OccurrencesStep(ms, 0);
    OccurrencesStep(ms, 1);
    assert ms[..0] == [] && ms[..2] == ms;
  }

  /** The values grouped under `key` from four pairs, one pair at a time. */
  lemma ValuesForFour<V>(p0: (string, V), p1: (string, V), p2: (string, V), p3: (string, V), key: string)
    ensures ValuesFor([p0, p1, p2, p3], key) ==
              (if p0.0 == key then [p0.1] else []) + (if p1.0 == key then [p1.1] else []) +
              (if p2.0 == key then [p2.1] else []) + (if p3.0 == key then [p3.1] else [])
  {
    assert [p0] == [] + [p0];
    ValuesForSnoc([], p0.0, p0.1, key);
    assert [p0, p1] == [p0] + [p1];
    ValuesForSnoc([p0], p1.0, p1.1, key);
    assert [p0, p1, p2] == [p0, p1] + [p2];
    ValuesForSnoc([p0, p1], p2.0, p2.1, key);
    assert [p0, p1, p2, p3] == [p0, p1, p2] + [p3];
    ValuesForSnoc([p0, p1, p2], p3.0, p3.1, key);
  }

  /** In by-dependency mode the key `package7>2` lists both declaring modules, in order. */
  lemma CrossRefByDependencyExample()
    ensures var modules := Group(CrossRefPairs(Occurrences(ExampleManifests), false), false);
            "package7>2" in modules && modules["package7>2"] == [DeclaredIn("package6"), DeclaredIn("package8")]
  {
    ExampleOccurrences();
    var occ := Occurrences(ExampleManifests);
    var key := "package7>2";
    assert "package7" + ">2" == key && "package9" + "==1" == "package9==1" && "package2" + "" == "package2";
    var pairs := CrossRefPairs(occ, false);
    var p0, p1, p2, p3 := (key, DeclaredIn("package6")), ("package2", DeclaredIn("package6")),
                          (key, DeclaredIn("package8")), ("package9==1", DeclaredIn("package8"));
    assert pairs[0] == p0 && pairs[1] == p1 && pairs[2] == p2 && pairs[3] == p3;
    assert pairs == [p0, p1, p2, p3];
    ValuesForFour(p0, p1, p2, p3, key);
    assert key in KeysOf(pairs) by { assert pairs[0].0 == key; }
    GroupAt(pairs, false, key);
  }

  /** In by-module mode the key `package8` lists its two requirements, in order. */
  lemma CrossRefByModuleExample()
    ensures var modules := Group(CrossRefPairs(Occurrences(ExampleManifests), true), false);
            "package8" in modules && modules["package8"] == [Requires("package7", ">2"), Requires("package9", "==1")]
  {
    ExampleOccurrences();
    var occ := Occurrences(ExampleManifests);
    var key := "package8";
    var pairs := CrossRefPairs(occ, true);
    var p0, p1, p2, p3 := ("package6", Requires("package7", ">2")), ("package6", Requires("package2", "")),
                          (key, Requires("package7", ">2")), (key, Requires("package9", "==1"));
    assert pairs[0] == p0 && pairs[1] == p1 && pairs[2] == p2 && pairs[3] == p3;
    assert pairs == [p0, p1, p2, p3];
    ValuesForFour(p0, p1, p2, p3, key);
    assert key in KeysOf(pairs) by { assert pairs[2].0 == key; }
    GroupAt(pairs, false, key);
  }

  /**
   * The fan-out `_parallel(f, keys)` over the keys of a dictionary or a set:
   * the keys in the order the container hands them out (each once), and the
   * answer for each, in that order.
   */
  method FetchAll<T>(keys: set<string>, fetch: string -> T) returns (order: seq<string>, list: seq<T>)
    ensures NoDuplicates(order) && forall k :: k in order <==> k in keys
    ensures |list| == |order| && forall i :: 0 <= i < |order| ==> list[i] == fetch(order[i])
  {
    order, list := [], [];
    var rest := keys;
    while rest != {}
      invariant rest <= keys
      invariant NoDuplicates(order) && forall k :: k in order <==> k in keys && k !in rest
      invariant |list| == |order| && forall i :: 0 <= i < |order| ==> list[i] == fetch(order[i])
      decreases |rest|
    {
      var k :| k in rest;
      order, list := order + [k], list + [fetch(k)];
      rest := rest - {k};
    }
  }

  /** The `(name, versions)` pairs `versions_dict` is built from: those with some version. */
  function VersionPairs(list: seq<VersionsOf>): (pairs: seq<(string, seq<string>)>) {
    if list == [] then []
    else
      var last := list[|list| - 1];
      VersionPairs(list[..|list| - 1]) + if last.versions != [] then [(last.name, last.versions)] else []
  }

  /** `versions_dict = dict((name, vers) for name, vers, lic in versions_list if vers)`. */
  function VersionsDict(list: seq<VersionsOf>): map<string, seq<string>> {
    ToMap(VersionPairs(list))
  }

  /** `license_dict = dict((name, lic) for name, vers, lic in versions_list)`. */
  function LicenseDict(list: seq<VersionsOf>): map<string, string> {
    ToMap(seq(|list|, i requires 0 <= i < |list| => (list[i].name, list[i].license)))
  }

  /** The packages whose licence is not on the allow-list, with that licence. */
  function Illegitimate(licenses: map<string, string>, allowed: seq<string>): (r: map<string, string>)
    ensures r.Keys <= licenses.Keys
    ensures forall p :: p in licenses ==> (p in r <==> licenses[p] !in allowed)
    ensures forall p :: p in r ==> r[p] == licenses[p]
  {
    map p | p in licenses && licenses[p] !in allowed :: licenses[p]
  }

  /** The versions each package has on the index, for those that have some. */
  function Available(keys: set<string>, fetch: string -> VersionsOf): map<string, seq<string>> {
    map k | k in keys && fetch(k).versions != [] :: fetch(k).versions
  }

  /** The licence the index gives each package. */
  function IndexLicenses(keys: set<string>, fetch: string -> VersionsOf): map<string, string> {
    map k | k in keys :: fetch(k).license
  }

  lemma ToMapSnoc<V>(pairs: seq<(string, V)>, p: (string, V))
    ensures ToMap(pairs + [p]) == ToMap(pairs)[p.0 := p.1]
  {
    assert (pairs + [p])[..|pairs|] == pairs;
  }

  lemma VersionPairsSnoc(list: seq<VersionsOf>, x: VersionsOf)
    ensures VersionPairs(list + [x]) == VersionPairs(list) + if x.versions != [] then [(x.name, x.versions)] else []
  {
    assert (list + [x])[..|list|] == list;
  }

  lemma VersionsDictSnoc(list: seq<VersionsOf>, x: VersionsOf)
    ensures VersionsDict(list + [x]) == if x.versions != [] then VersionsDict(list)[x.name := x.versions] else VersionsDict(list)
  {
    VersionPairsSnoc(list, x);
    if x.versions != [] {
      ToMapSnoc(VersionPairs(list), (x.name, x.versions));
    } else {
      assert VersionPairs(list + [x]) == VersionPairs(list);
    }
  }

  lemma AvailableInsert(keys: set<string>, k: string, fetch: string -> VersionsOf)
    ensures Available(keys + {k}, fetch) == if fetch(k).versions != [] then Available(keys, fetch)[k := fetch(k).versions] else Available(keys, fetch)
  {
  }

  /** The fetched answers, keyed by their names, give the versions available. */
  lemma {:induction false} VersionsDictOfFetched(order: seq<string>, list: seq<VersionsOf>, fetch: string -> VersionsOf)
    requires forall k :: fetch(k).name == k
    requires |list| == |order| && forall i :: 0 <= i < |order| ==> list[i] == fetch(order[i])
    ensures VersionsDict(list) == Available((set k | k in order), fetch)
    decreases |order|
  {
    if order != [] {
      var n := |order| - 1;
      assert list == list[..n] + [list[n]];
      VersionsDictOfFetched(order[..n], list[..n], fetch);
      VersionsDictSnoc(list[..n], list[n]);
      AvailableInsert((set k | k in order[..n]), order[n], fetch);
      assert order == order[..n] + [order[n]];
      ElementsOfSnoc(order[..n], order[n]);
    }
  }

  /** The elements of a list with one more element at the end. */
  lemma ElementsOfSnoc(init: seq<string>, last: string)
    ensures (set k | k in init + [last]) == (set k | k in init) + {last}
  {
  }

  /** With every name fetched once, the licence map is the index's licence of each. */
  lemma LicenseDictOfFetched(order: seq<string>, list: seq<VersionsOf>, fetch: string -> VersionsOf)
    requires forall k :: fetch(k).name == k
    requires NoDuplicates(order)
    requires |list| == |order| && forall i :: 0 <= i < |order| ==> list[i] == fetch(order[i])
    ensures LicenseDict(list) == IndexLicenses((set k | k in order), fetch)
  {
    var pairs := seq(|list|, i requires 0 <= i < |list| => (list[i].name, list[i].license));
    var d := ToMap(pairs);
    assert forall i :: 0 <= i < |pairs| ==> pairs[i].0 == order[i];
    assert KeysOf(pairs) == set k | k in order;
    forall k | k in d
      ensures d[k] == fetch(k).license
    {
      var i :| 0 <= i < |order| && order[i] == k;
      assert LastWithKey(pairs, i);
    }
  }

  /** The error `seekup` and `licenses` report; the text of each message is not modelled. */
  datatype Failure =
    | NoInput
    | IllegalInputType
    | NoSetupFile
    | UrlFailed
    | BuildingTreeFailed
    | NoPackageInstalled(name: string)
    | NoDependencies
    | NoVersions

  /** `_get_dependencies_by_package_name`, given what `get_for_package` returned. */
  function FromPackage(input: string, found: Option<PackageDependencies>): (r: Result<seq<Manifest>, Failure>)
    ensures found.None? ==> r == Failure(BuildingTreeFailed)
    ensures found.Some? && found.value.deps.None? ==> r == Failure(NoPackageInstalled(input))
    ensures found.Some? && found.value.deps.Some? ==>
              r == Success([Manifest(found.value.deps.value, found.value.name, found.value.license)])
  {
    match found
    case None => Failure(BuildingTreeFailed)
    case Some(result) =>
      if result.deps.None? then Failure(NoPackageInstalled(input))
      else Success([Manifest(result.deps.value, result.name, result.license)])
  }

  /** `_get_dependencies_from_path`, given the triples of the `setup.py` files found. */
  function FromPath(found: seq<Manifest>): (r: Result<seq<Manifest>, Failure>)
    ensures found == [] <==> r == Failure(NoSetupFile)
    ensures found != [] ==> r == Success(found)
  {
    if found == [] then Failure(NoSetupFile) else Success(found)
  }

  /** `_get_dependencies_from_url`, given what `get_by_url` returned. */
  function FromUrl(found: Option<Manifest>): (r: Result<seq<Manifest>, Failure>)
    ensures found.None? <==> r == Failure(UrlFailed)
    ensures found.Some? ==> r == Success([found.value])
  {
    if found.None? then Failure(UrlFailed) else Success([found.value])
  }

  /** The `seekup` arguments after the defaults; `input` is `None` when no input was given. */
  datatype SeekupArgs = SeekupArgs(input: Option<string>, inputType: string, byModule: bool, showLicense: Option<seq<string>>)

  /** The dictionary `seekup` returns (as JSON, or rendered). */
  datatype SeekupReport = SeekupReport(
    results: seq<Record>,
    modules: map<string, seq<CrossRef>>,
    licenses: Option<map<string, string>>,
    illegitimate: Option<map<string, string>>)

  /**
   * `seekup(**kwargs)`. `inputs` maps each input type (the keys of `INPUTS`)
   * to what its collector returns for these arguments, and `fetch` is
   * `versions.get_from_pypi`. The checks come in the source's order: no
   * input, an unknown input type, the collector's error, no dependency,
   * no versions. Otherwise the results are those of `get_new_available` on
   * the grouped requirements and the versions available, and the licence
   * maps are present as the allow-list asks.
   */
  method Seekup(args: SeekupArgs, inputs: map<string, Result<seq<Manifest>, Failure>>, fetch: string -> VersionsOf)
    returns (r: Result<SeekupReport, Failure>)
    requires forall k :: fetch(k).name == k
    ensures args.input.None? ==> r == Failure(NoInput)
    ensures args.input.Some? && args.inputType !in inputs ==> r == Failure(IllegalInputType)
    ensures args.input.Some? && args.inputType in inputs && inputs[args.inputType].Failure? ==>
              r == Failure(inputs[args.inputType].error)
    ensures args.input.Some? && args.inputType in inputs && inputs[args.inputType].Success? ==>
              var occ := Occurrences(inputs[args.inputType].value);
              var deps := Group(RequirePairs(occ), true);
              var available := Available(deps.Keys, fetch);
              (occ == [] ==> r == Failure(NoDependencies)) &&
              (occ != [] && available == map[] ==> r == Failure(NoVersions)) &&
              (occ != [] && available != map[] ==>
                 r.Success? &&
                 r.value.modules == Group(CrossRefPairs(occ, args.byModule), false) &&
                 (forall keys :: SortedEnumeration(keys, deps.Keys) ==>
                    r.value.results == RecordsOf(RequirementsFor(keys, deps, available), available)) &&
                 (r.value.licenses.Some? <==> args.showLicense.Some?) &&
                 (r.value.licenses.Some? ==> r.value.licenses.value == IndexLicenses(deps.Keys, fetch)) &&
                 (r.value.illegitimate.Some? <==> args.showLicense.Some? && args.showLicense.value != []) &&
                 (r.value.illegitimate.Some? ==>
                    r.value.illegitimate.value == Illegitimate(IndexLicenses(deps.Keys, fetch), args.showLicense.value)))
  {
    if args.input.None? {
      return Failure(NoInput);
    }
    if args.inputType !in inputs {
      return Failure(IllegalInputType);
    }
    var collected := inputs[args.inputType];
    if collected.Failure? {
      return Failure(collected.error);
    }
    var deps, modules := Collect(collected.value, args.byModule);
    RequirementsGrouped(Occurrences(collected.value));
    if deps == map[] {
      return Failure(NoDependencies);
    }
    var order, list := FetchAll(deps.Keys, fetch);
    var available := VersionsDict(list);
    VersionsDictOfFetched(order, list, fetch);
    assert (set k | k in order) == deps.Keys;
    var licenses := if args.showLicense.Some? then Some(LicenseDict(list)) else None;
    if args.showLicense.Some? {
      LicenseDictOfFetched(order, list, fetch);
    }
    var illegitimate := if args.showLicense.Some? && args.showLicense.value != []
      then Some(Illegitimate(licenses.value, args.showLicense.value)) else None;
    if available == map[] {
      return Failure(NoVersions);
    }
    var results := GetNewAvailable(deps, available);
    return Success(SeekupReport(results, modules, licenses, illegitimate));
  }

  /** The names `licenses` asks the index about: every manifest's name and every dependency. */
  function LicenseNames(ms: seq<Manifest>): set<string> {
    (set i | 0 <= i < |ms| :: ms[i].moduleName) + (set o | o in Occurrences(ms) :: o.package)
  }

  /** `dependencies_dict = dict((package, lic) for _, package, lic in dependencies_list)`: the last manifest of a name wins. */
  function DeclaredLicenses(ms: seq<Manifest>): (d: map<string, string>)
    ensures d.Keys == set i | 0 <= i < |ms| :: ms[i].moduleName
    ensures forall i :: 0 <= i < |ms| && (forall j :: i < j < |ms| ==> ms[j].moduleName != ms[i].moduleName) ==>
              d[ms[i].moduleName] == ms[i].license
  {
    var pairs := seq(|ms|, i requires 0 <= i < |ms| => (ms[i].moduleName, ms[i].license));
    assert forall i :: 0 <= i < |ms| ==> pairs[i].0 == ms[i].moduleName;
    assert KeysOf(pairs) == set i | 0 <= i < |ms| :: ms[i].moduleName;
    ToMap(pairs)
  }

  /** The licence `licenses` settles on: the index's, unless that is `UNKNOWN`, then the declared one, else `UNKNOWN`. */
  function EffectiveLicense(k: string, fetch: string -> VersionsOf, declared: map<string, string>): string {
    var lic := fetch(k).license;
    if lic == Unknown then (if k in declared then declared[k] else Unknown) else lic
  }

  /** The key and the value `licenses` groups for one name: licence to name, or name to licence in by-module mode. */
  function LicenseEntry(k: string, fetch: string -> VersionsOf, declared: map<string, string>, byModule: bool): (string, string) {
    var lic := EffectiveLicense(k, fetch, declared);
    if byModule then (k, lic) else (lic, k)
  }

  /** The licence is flagged: the allow-list is given, not empty, and does not hold it. */
  predicate Flagged(lic: string, showLicense: Option<seq<string>>) {
    showLicense.Some? && showLicense.value != [] && lic !in showLicense.value
  }

  /** The entries of the names in `order`, all of them or only the flagged ones. */
  function LicenseEntries(order: seq<string>, fetch: string -> VersionsOf, declared: map<string, string>, byModule: bool,
                          showLicense: Option<seq<string>>, onlyFlagged: bool): seq<(string, string)>
  {
    if order == [] then []
    else
      var k := order[|order| - 1];
      LicenseEntries(order[..|order| - 1], fetch, declared, byModule, showLicense, onlyFlagged) +
      if !onlyFlagged || Flagged(EffectiveLicense(k, fetch, declared), showLicense) then [LicenseEntry(k, fetch, declared, byModule)] else []
  }

  lemma {:induction false} LicenseEntriesMembership(order: seq<string>, fetch: string -> VersionsOf, declared: map<string, string>,
                                                   byModule: bool, showLicense: Option<seq<string>>, onlyFlagged: bool)
    ensures forall e :: e in LicenseEntries(order, fetch, declared, byModule, showLicense, onlyFlagged) <==>
              exists k :: k in order && (!onlyFlagged || Flagged(EffectiveLicense(k, fetch, declared), showLicense)) &&
                          LicenseEntry(k, fetch, declared, byModule) == e
    decreases |order|
  {
    if order != [] {
      var init := order[..|order| - 1];
      LicenseEntriesMembership(init, fetch, declared, byModule, showLicense, onlyFlagged);
      assert order == init + [order[|order| - 1]];
    }
  }

  lemma LicenseEntriesSnoc(order: seq<string>, i: nat, fetch: string -> VersionsOf, declared: map<string, string>,
                           byModule: bool, showLicense: Option<seq<string>>, onlyFlagged: bool)
    requires i < |order|
    ensures var k := order[i];
            LicenseEntries(order[..i + 1], fetch, declared, byModule, showLicense, onlyFlagged) ==
              LicenseEntries(order[..i], fetch, declared, byModule, showLicense, onlyFlagged) +
              if !onlyFlagged || Flagged(EffectiveLicense(k, fetch, declared), showLicense) then [LicenseEntry(k, fetch, declared, byModule)] else []
  {
    assert order[..i + 1][..i] == order[..i];
  }

  /** The groupings `licenses` builds, given the order the fan-out answered in. */
  lemma LicensesStep(order: seq<string>, i: nat, fetch: string -> VersionsOf, declared: map<string, string>,
                     byModule: bool, showLicense: Option<seq<string>>, onlyFlagged: bool)
    requires i < |order|
    ensures var k := order[i];
            var e := LicenseEntry(k, fetch, declared, byModule);
            Group(LicenseEntries(order[..i + 1], fetch, declared, byModule, showLicense, onlyFlagged), true) ==
              if !onlyFlagged || Flagged(EffectiveLicense(k, fetch, declared), showLicense)
              then AddTo(Group(LicenseEntries(order[..i], fetch, declared, byModule, showLicense, onlyFlagged), true), e.0, e.1, true)
              else Group(LicenseEntries(order[..i], fetch, declared, byModule, showLicense, onlyFlagged), true)
  {
    var k := order[i];
    var e := LicenseEntry(k, fetch, declared, byModule);
    var before := LicenseEntries(order[..i], fetch, declared, byModule, showLicense, onlyFlagged);
    var keep := !onlyFlagged || Flagged(EffectiveLicense(k, fetch, declared), showLicense);
    LicenseEntriesSnoc(order, i, fetch, declared, byModule, showLicense, onlyFlagged);
    if keep {
      assert e == (e.0, e.1);
      GroupSnoc(before, e.0, e.1, true);
    } else {
      assert before + [] == before;
    }
  }

  /** The arguments of `licenses` after the defaults. */
  datatype LicensesArgs = LicensesArgs(input: Option<string>, inputType: string, byModule: bool, showLicense: Option<seq<string>>)

  /** `licenses_dict` and `illegitimate_licenses`. */
  datatype LicensesReport = LicensesReport(licenses: map<string, seq<string>>, illegitimate: map<string, seq<string>>)

  /**
   * The loop of `licenses` over the fan-out's answers, in the order `order`
   * the names were handed out.
   */
  method GroupLicenses(order: seq<string>, list: seq<VersionsOf>, fetch: string -> VersionsOf, declared: map<string, string>,
                       byModule: bool, showLicense: Option<seq<string>>)
    returns (licenses: map<string, seq<string>>, illegitimate: map<string, seq<string>>)
    requires forall k :: fetch(k).name == k
    requires |list| == |order| && forall i :: 0 <= i < |order| ==> list[i] == fetch(order[i])
    ensures licenses == Group(LicenseEntries(order, fetch, declared, byModule, showLicense, false), true)
    ensures illegitimate == Group(LicenseEntries(order, fetch, declared, byModule, showLicense, true), true)
  {
    licenses, illegitimate := map[], map[];
    for i := 0 to |list|
      invariant licenses == Group(LicenseEntries(order[..i], fetch, declared, byModule, showLicense, false), true)
      invariant illegitimate == Group(LicenseEntries(order[..i], fetch, declared, byModule, showLicense, true), true)
    {
      var name, lic := list[i].name, list[i].license;
      if lic == Unknown {
        lic := if name in declared then declared[name] else Unknown;
      }
      var key, value := if byModule then name else lic, if byModule then lic else name;
      LicensesStep(order, i, fetch, declared, byModule, showLicense, false);
      LicensesStep(order, i, fetch, declared, byModule, showLicense, true);
      licenses := AddOnce(licenses, key, value);
      if showLicense.Some? && showLicense.value != [] && lic !in showLicense.value {
        illegitimate := AddOnce(illegitimate, key, value);
      }
    }
    assert order[..|order|] == order;
  }

  /** What the grouped licences hold, whatever order the fan-out answered in. */
  lemma LicensesGrouped(order: seq<string>, fetch: string -> VersionsOf, declared: map<string, string>,
                        byModule: bool, showLicense: Option<seq<string>>, onlyFlagged: bool, key: string, value: string)
    ensures var g := Group(LicenseEntries(order, fetch, declared, byModule, showLicense, onlyFlagged), true);
            (key in g && value in g[key] <==>
               exists k :: k in order && (!onlyFlagged || Flagged(EffectiveLicense(k, fetch, declared), showLicense)) &&
                           LicenseEntry(k, fetch, declared, byModule) == (key, value)) &&
            (key in g ==> NoDuplicates(g[key]))
  {
    LicenseEntriesMembership(order, fetch, declared, byModule, showLicense, onlyFlagged);
    GroupMembership(LicenseEntries(order, fetch, declared, byModule, showLicense, onlyFlagged), true);
  }

  /**
   * `licenses(**kwargs)`: the same checks as `seekup` up to the collector,
   * then the names of the manifests and of their dependencies are looked up
   * on the index, and each name's settled licence is grouped (licence to
   * names, or name to licences), each list without repetition; the flagged
   * ones are grouped the same way into `illegitimate`.
   */
  method Licenses(args: LicensesArgs, inputs: map<string, Result<seq<Manifest>, Failure>>, fetch: string -> VersionsOf)
    returns (r: Result<LicensesReport, Failure>)
    requires forall k :: fetch(k).name == k
    ensures args.input.None? ==> r == Failure(NoInput)
    ensures args.input.Some? && args.inputType !in inputs ==> r == Failure(IllegalInputType)
    ensures args.input.Some? && args.inputType in inputs && inputs[args.inputType].Failure? ==>
              r == Failure(inputs[args.inputType].error)
    ensures args.input.Some? && args.inputType in inputs && inputs[args.inputType].Success? ==> r.Success?
    ensures r.Success? ==>
              var ms := inputs[args.inputType].value;
              var declared := DeclaredLicenses(ms);
              exists order ::
                NoDuplicates(order) && (forall k :: k in order <==> k in LicenseNames(ms)) &&
                r.value.licenses == Group(LicenseEntries(order, fetch, declared, args.byModule, args.showLicense, false), true) &&
                r.value.illegitimate == Group(LicenseEntries(order, fetch, declared, args.byModule, args.showLicense, true), true)
  {
    if args.input.None? {
      return Failure(NoInput);
    }
    if args.inputType !in inputs {
      return Failure(IllegalInputType);
    }
    var collected := inputs[args.inputType];
    if collected.Failure? {
      return Failure(collected.error);
    }
    var ms := collected.value;
    var declared := DeclaredLicenses(ms);
    var names := LicenseNames(ms);
    var order, list := FetchAll(names, fetch);
    var licenses, illegitimate := GroupLicenses(order, list, fetch, declared, args.byModule, args.showLicense);
    return Success(LicensesReport(licenses, illegitimate));
  }

  /** A key of the index's `info` object: missing, JSON `null`, or a string. */
  datatype InfoField = Missing | JsonNull | Text(text: string)

  /** The `info` object of an index document; `name` is `None` when the key is missing. */
  datatype PackageInfo = PackageInfo(name: Option<string>, summary: InfoField, license: InfoField, homepage: InfoField)

  /** What `get_package_data_from_pypi` parsed; `releases` holds the keys of the `releases` object. */
  datatype PackageDocument = PackageDocument(info: Option<PackageInfo>, releases: Option<seq<string>>)

  /** A licence as `show_package` reports it: JSON `null` or a string. */
  datatype LicenseValue = NullLicense | Named(name: string)

  /** The arguments of `show_package` after the defaults. */
  datatype ShowArgs = ShowArgs(input: Option<string>, depth: int, showLicense: Option<seq<string>>, versions: bool, homepage: bool, summary: bool)

  /** One rewritten tree entry; `None` marks a key the entry does not have. */
  datatype PackageEntry = PackageEntry(
    dependencies: seq<Edge>,
    summary: Option<string>,
    license: Option<LicenseValue>,
    homepage: Option<string>,
    versions: Option<seq<string>>)

  /** `dependencies_tree` after the rewrite and, when an allow-list was given, `illegitimate_licenses`. */
  datatype ShowReport = ShowReport(tree: map<string, PackageEntry>, illegitimate: Option<map<string, LicenseValue>>)

  /** Some detail beyond the dependencies is asked for, so the index is queried. */
  predicate Requested(args: ShowArgs) {
    args.showLicense.Some? || args.versions || args.homepage || args.summary
  }

  /** The document is kept in `packages_dict`: it was fetched and its `info` has a `name`. */
  predicate Indexed(doc: Option<PackageDocument>) {
    doc.Some? && doc.value.info.Some? && doc.value.info.value.name.Some?
  }

  /** The `(lower-cased name, document)` pairs `packages_dict` is built from. */
  function DocumentPairs(docs: seq<Option<PackageDocument>>): seq<(string, PackageDocument)> {
    if docs == [] then []
    else
      var last := docs[|docs| - 1];
      DocumentPairs(docs[..|docs| - 1]) + if Indexed(last) then [(Lower(last.value.info.value.name.value), last.value)] else []
  }

  lemma {:induction false} DocumentPairsMembership(docs: seq<Option<PackageDocument>>)
    ensures forall e :: e in DocumentPairs(docs) <==>
              exists d :: d in docs && Indexed(d) && e == (Lower(d.value.info.value.name.value), d.value)
    decreases |docs|
  {
    if docs != [] {
      var init := docs[..|docs| - 1];
      DocumentPairsMembership(init);
      assert docs == init + [docs[|docs| - 1]];
    }
  }

  /**
   * `packages_dict` relates the tree's keys to their documents: every entry
   * is the document of some key, filed under its lower-cased name, and every
   * kept document has an entry under its name.
   */
  ghost predicate IndexedBy(packages: map<string, PackageDocument>, keys: set<string>, fetchDoc: string -> Option<PackageDocument>) {
    (forall p :: p in packages ==>
       exists k :: k in keys && Indexed(fetchDoc(k)) && Lower(fetchDoc(k).value.info.value.name.value) == p && packages[p] == fetchDoc(k).value) &&
    (forall k :: k in keys && Indexed(fetchDoc(k)) ==> Lower(fetchDoc(k).value.info.value.name.value) in packages)
  }

  lemma PackagesDictIndexed(order: seq<string>, docs: seq<Option<PackageDocument>>, keys: set<string>, fetchDoc: string -> Option<PackageDocument>)
    requires forall k :: k in order <==> k in keys
    requires |docs| == |order| && forall i :: 0 <= i < |order| ==> docs[i] == fetchDoc(order[i])
    ensures IndexedBy(ToMap(DocumentPairs(docs)), keys, fetchDoc)
  {
    PackagesFromKeys(order, docs, keys, fetchDoc);
    KeysInPackages(order, docs, keys, fetchDoc);
  }

  /** Every entry of `packages_dict` is the document of some key, under its lower-cased name. */
  lemma PackagesFromKeys(order: seq<string>, docs: seq<Option<PackageDocument>>, keys: set<string>, fetchDoc: string -> Option<PackageDocument>)
    requires forall k :: k in order ==> k in keys
    requires |docs| == |order| && forall i :: 0 <= i < |order| ==> docs[i] == fetchDoc(order[i])
    ensures forall p :: p in ToMap(DocumentPairs(docs)) ==>
              exists k :: k in keys && Indexed(fetchDoc(k)) && Lower(fetchDoc(k).value.info.value.name.value) == p &&
                          ToMap(DocumentPairs(docs))[p] == fetchDoc(k).value
  {
    var pairs := DocumentPairs(docs);
    var packages := ToMap(pairs);
    DocumentPairsMembership(docs);
    ToMapFromPairs(pairs);
    forall p | p in packages
      ensures exists k :: k in keys && Indexed(fetchDoc(k)) && Lower(fetchDoc(k).value.info.value.name.value) == p && packages[p] == fetchDoc(k).value
    {
      assert (p, packages[p]) in pairs;
      var d :| d in docs && Indexed(d) && (p, packages[p]) == (Lower(d.value.info.value.name.value), d.value);
      var i :| 0 <= i < |docs| && docs[i] == d;
      assert order[i] in keys;
    }
  }

  /** Every key whose document has a name gets an entry under that name. */
  lemma KeysInPackages(order: seq<string>, docs: seq<Option<PackageDocument>>, keys: set<string>, fetchDoc: string -> Option<PackageDocument>)
    requires forall k :: k in keys ==> k in order
    requires |docs| == |order| && forall i :: 0 <= i < |order| ==> docs[i] == fetchDoc(order[i])
    ensures forall k :: k in keys && Indexed(fetchDoc(k)) ==> Lower(fetchDoc(k).value.info.value.name.value) in ToMap(DocumentPairs(docs))
  {
    var pairs := DocumentPairs(docs);
    DocumentPairsMembership(docs);
    forall k | k in keys && Indexed(fetchDoc(k))
      ensures Lower(fetchDoc(k).value.info.value.name.value) in ToMap(pairs)
    {
      var i :| 0 <= i < |order| && order[i] == k;
      var e := (Lower(fetchDoc(k).value.info.value.name.value), fetchDoc(k).value);
      assert docs[i] in docs;
      assert e in pairs;
      var j :| 0 <= j < |pairs| && pairs[j] == e;
      assert e.0 in KeysOf(pairs);
    }
  }

  /** `packages_dict.get(pack)`. */
  function Lookup(packages: map<string, PackageDocument>, pack: string): Option<PackageDocument> {
    if pack in packages then Some(packages[pack]) else None
  }

  /** `pack_dict.get(INFO_KEY, {})`: a document without `info` reads as one whose every key is missing. */
  function InfoOf(doc: Option<PackageDocument>): PackageInfo {
    if doc.Some? && doc.value.info.Some? then doc.value.info.value else PackageInfo(None, Missing, Missing, Missing)
  }

  /** `info.get(key, UNKNOWN)` for a field the entry drops when it is `None`. */
  function FieldOrUnknown(f: InfoField): Option<string> {
    match f
    case Missing => Some(Unknown)
    case JsonNull => None
    case Text(s) => Some(s)
  }

  /** `info.get(LICENSE_KEY, UNKNOWN)` as the licence entry keeps it, `null` included. */
  function LicenseOf(info: PackageInfo): LicenseValue {
    match info.license
    case Missing => Named(Unknown)
    case JsonNull => NullLicense
    case Text(s) => Named(s)
  }

  /**
   * The entry `show_package` writes for a package: the edges, and each
   * requested field that is not `None`; the licence is put back after the
   * filtering, so it is there, `null` or not, whenever an allow-list was
   * given; the versions are the release names, `[]` without a document.
   */
  function EntryOf(edges: seq<Edge>, doc: Option<PackageDocument>, args: ShowArgs): PackageEntry {
    var info := InfoOf(doc);
    PackageEntry(
      edges,
      if args.summary then FieldOrUnknown(info.summary) else None,
      if args.showLicense.Some? then Some(LicenseOf(info)) else None,
      if args.homepage then FieldOrUnknown(info.homepage) else None,
      if args.versions then Some(if doc.Some? && doc.value.releases.Some? then doc.value.releases.value else []) else None)
  }

  /**
   * An entry keeps its edges and holds a field exactly when it was asked
   * for and is not `null`; the licence and the versions are there whenever
   * asked for; a missing field reads `UNKNOWN`, missing releases `[]`.
   */
  lemma EntryFields(edges: seq<Edge>, doc: Option<PackageDocument>, args: ShowArgs)
    ensures var e := EntryOf(edges, doc, args);
            var info := InfoOf(doc);
            e.dependencies == edges &&
            (e.summary.Some? <==> args.summary && info.summary != JsonNull) &&
            (e.homepage.Some? <==> args.homepage && info.homepage != JsonNull) &&
            (e.license.Some? <==> args.showLicense.Some?) &&
            (e.versions.Some? <==> args.versions) &&
            (e.summary.Some? ==> e.summary.value == if info.summary.Text? then info.summary.text else Unknown) &&
            (e.homepage.Some? ==> e.homepage.value == if info.homepage.Text? then info.homepage.text else Unknown) &&
            (e.license.Some? ==> e.license.value == LicenseOf(info)) &&
            (e.versions.Some? ==> e.versions.value == if doc.Some? && doc.value.releases.Some? then doc.value.releases.value else [])
  {
  }

  /** With no detail asked for, the index is not queried and each entry is its edges alone. */
  lemma EntryWithoutDetails(edges: seq<Edge>, doc: Option<PackageDocument>, args: ShowArgs)
    requires !Requested(args)
    ensures EntryOf(edges, doc, args) == PackageEntry(edges, None, None, None, None)
  {
  }

  /** The licence is flagged by `show_package`: the allow-list is not empty and does not name it. */
  predicate Unlisted(lic: LicenseValue, allowed: seq<string>) {
    allowed != [] && (lic.NullLicense? || lic.name !in allowed)
  }

  /**
   * The loop of `show_package` over the tree's keys: each entry is replaced
   * by its requested fields, and the packages whose licence the allow-list
   * does not name are collected.
   */
  method RewriteTree(tree: Tree, found: map<string, PackageDocument>, args: ShowArgs)
    returns (entries: map<string, PackageEntry>, illegitimate: map<string, LicenseValue>)
    ensures entries.Keys == tree.Keys
    ensures forall p :: p in tree ==> entries[p] == EntryOf(tree[p], Lookup(found, p), args)
    ensures forall p :: p in illegitimate <==>
              p in tree && args.showLicense.Some? && Unlisted(LicenseOf(InfoOf(Lookup(found, p))), args.showLicense.value)
    ensures forall p :: p in illegitimate ==> illegitimate[p] == LicenseOf(InfoOf(Lookup(found, p)))
  {
    entries, illegitimate := map[], map[];
    var rest := tree.Keys;
    while rest != {}
      invariant rest <= tree.Keys
      invariant forall p :: p in entries <==> p in tree && p !in rest
      invariant forall p :: p in entries ==> entries[p] == EntryOf(tree[p], Lookup(found, p), args)
      invariant forall p :: p in illegitimate <==>
                  p in tree && p !in rest && args.showLicense.Some? && Unlisted(LicenseOf(InfoOf(Lookup(found, p))), args.showLicense.value)
      invariant forall p :: p in illegitimate ==> illegitimate[p] == LicenseOf(InfoOf(Lookup(found, p)))
      decreases |rest|
    {
      var pack :| pack in rest;
      var doc := Lookup(found, pack);
      entries := entries[pack := EntryOf(tree[pack], doc, args)];
      if args.showLicense.Some? {
        var lic := LicenseOf(InfoOf(doc));
        if Unlisted(lic, args.showLicense.value) {
          illegitimate := illegitimate[pack := lic];
        }
      }
      rest := rest - {pack};
    }
  }

  /**
   * `show_package(**kwargs)` given what `pipdeptree -j` printed (`None` when
   * it failed) and `fetchDoc` for `get_package_data_from_pypi`. The index
   * is queried only when some detail is asked for; `packages` is the
   * `packages_dict` the fan-out produced. Every tree key gets its entry,
   * and with an allow-list the packages whose licence it does not name are
   * reported.
   */
  method ShowPackage(args: ShowArgs, output: Option<seq<SourceItem>>, fetchDoc: string -> Option<PackageDocument>)
    returns (r: Result<ShowReport, Failure>, ghost packages: map<string, PackageDocument>)
    ensures args.input.None? ==> r == Failure(NoInput)
    ensures args.input.Some? && output.None? ==> r == Failure(BuildingTreeFailed)
    ensures args.input.Some? && output.Some? ==> r.Success?
    ensures r.Success? ==>
              var tree := Build(Deppy, map[], output.value, args.input.value, args.depth);
              (Requested(args) ==> IndexedBy(packages, tree.Keys, fetchDoc)) &&
              (!Requested(args) ==> packages == map[]) &&
              r.value.tree.Keys == tree.Keys &&
              (forall p :: p in tree ==> r.value.tree[p] == EntryOf(tree[p], Lookup(packages, p), args)) &&
              (r.value.illegitimate.Some? <==> args.showLicense.Some?) &&
              (r.value.illegitimate.Some? ==>
                 (forall p :: p in r.value.illegitimate.value <==>
                    p in tree && Unlisted(LicenseOf(InfoOf(Lookup(packages, p))), args.showLicense.value)) &&
                 (forall p :: p in r.value.illegitimate.value ==>
                    r.value.illegitimate.value[p] == LicenseOf(InfoOf(Lookup(packages, p)))))
  {
    packages := map[];
    if args.input.None? {
      return Failure(NoInput), packages;
    }
    var built := BuildTree(args.input.value, args.depth, output);
    if built.None? {
      return Failure(BuildingTreeFailed), packages;
    }
    var tree := built.value;
    var found: map<string, PackageDocument> := map[];
    if Requested(args) {
      var order, docs := FetchAll(tree.Keys, fetchDoc);
      found := ToMap(DocumentPairs(docs));
      PackagesDictIndexed(order, docs, tree.Keys, fetchDoc);
    }
    packages := found;
    var entries, illegitimate := RewriteTree(tree, found, args);
    return Success(ShowReport(entries, if args.showLicense.Some? then Some(illegitimate) else None)), packages;
  }
}

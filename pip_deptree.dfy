/**
 * The dependency tree both generations build from the JSON that `pipdeptree -j`
 * prints (`_rec_build_tree` in `deppy/dependencies.py`, `rec_build_dep_tree`
 * in `dep_vers/dep_vers_module.py`), as a specification the imperative
 * builders are proved against.
 *
 * The JSON is a list of items `{package: {key}, dependencies: [{key,
 * required_version}]}`; the tree maps a lower-cased package name to the list of
 * its edges `{package, require}`. Starting from a root name, the builder records
 * the root's edges and visits every child depth-first, skipping names that are
 * already keys, which is what makes cycles terminate.
 */
module DependencyTree {
  import opened Wrappers
  import opened Text

  /** `required_version` of a JSON dependency: absent, `null`, or a string. */
  datatype VersionField = Absent | Null | Given(text: string)

  /** One element of an item's `dependencies` list; `key` is `None` when the field is absent. */
  datatype RawDependency = RawDependency(key: Option<string>, requiredVersion: VersionField)

  /**
   * One item of the `pipdeptree` list. `packageKey` is `None` when `package` or
   * its `key` is missing; `dependencies` is `None` when that field is absent.
   */
  datatype SourceItem = SourceItem(packageKey: Option<string>, dependencies: Option<seq<RawDependency>>)

  /** A tree entry `{package: name, require: version}`. */
  datatype Edge = Edge(package: string, require: string)

  type Tree = map<string, seq<Edge>>

  /**
   * The two builders differ in when they stop and which edges they keep:
   * `Deppy` records the root at every depth and expands children while the
   * depth is not 0; `DepVers` stops on entry when the depth is 0.
   */
  datatype Generation = Deppy | DepVers

  /** The item describes the package whose lower-cased name is `key`. */
  predicate Matches(item: SourceItem, key: string) {
    item.packageKey.Some? && Lower(item.packageKey.value) == key
  }

  /**
   * The edge a JSON dependency becomes, if any. Both generations skip a
   * dependency without `key`; deppy reads a missing version as "" while
   * dep_vers skips the dependency; `null` becomes "", anything else is lower-cased.
   */
  function EdgeOf(g: Generation, d: RawDependency): (r: Option<Edge>)
    ensures r.Some? <==> d.key.Some? && (g == Deppy || !d.requiredVersion.Absent?)
    ensures r.Some? ==> r.value.package == Lower(d.key.value) && IsLower(r.value.require)
    ensures r.Some? && d.requiredVersion.Given? ==> r.value.require == Lower(d.requiredVersion.text)
    ensures r.Some? && !d.requiredVersion.Given? ==> r.value.require == ""
  {
    LowerIsLower(if d.requiredVersion.Given? then d.requiredVersion.text else "");
    match d.key
    case None => None
    case Some(k) =>
      match d.requiredVersion
      case Absent => if g == Deppy then Some(Edge(Lower(k), "")) else None
      case Null => Some(Edge(Lower(k), ""))
      case Given(v) => Some(Edge(Lower(k), Lower(v)))
  }

  /** The edges of the dependencies `ds`, in order. */
  function EdgesFrom(g: Generation, ds: seq<RawDependency>): seq<Edge> {
    if ds == [] then []
    else
      var init, last := ds[..|ds| - 1], ds[|ds| - 1];
      EdgesFrom(g, init) + (match EdgeOf(g, last) case Some(e) => [e] case None => [])
  }

  /** The edge list recorded for an item; a missing `dependencies` field gives []. */
  function EdgesOf(g: Generation, item: SourceItem): seq<Edge> {
    match item.dependencies
    case None => []
    case Some(ds) => EdgesFrom(g, ds)
  }

  lemma {:induction false} EdgesFromSound(g: Generation, ds: seq<RawDependency>)
    ensures forall e :: e in EdgesFrom(g, ds) <==> exists d :: d in ds && EdgeOf(g, d) == Some(e)
    decreases |ds|
  {
    if ds != [] {
      var init, last := ds[..|ds| - 1], ds[|ds| - 1];
      EdgesFromSound(g, init);
      assert ds == init + [last];
    }
  }

  /** The lower-cased names of the items that have a package key. */
  function SourceNames(src: seq<SourceItem>): set<string> {
    set i | 0 <= i < |src| && src[i].packageKey.Some? :: Lower(src[i].packageKey.value)
  }

  /** The item has a package key that is not yet a key of the tree. */
  predicate Pending(item: SourceItem, t: Tree) {
    item.packageKey.Some? && Lower(item.packageKey.value) !in t
  }

  /** The number of items from index `k` on that are pending. */
  function PendingFrom(src: seq<SourceItem>, t: Tree, k: nat): nat
    decreases |src| - k
  {
    if k >= |src| then 0 else (if Pending(src[k], t) then 1 else 0) + PendingFrom(src, t, k + 1)
  }

  /** The number of source items whose package is not yet a key of the tree: the builder's termination measure. */
  function Unvisited(src: seq<SourceItem>, t: Tree): nat {
    PendingFrom(src, t, 0)
  }

  lemma {:induction false} PendingFromMonotone(src: seq<SourceItem>, t: Tree, u: Tree, k: nat)
    requires t.Keys <= u.Keys
    ensures PendingFrom(src, u, k) <= PendingFrom(src, t, k)
    decreases |src| - k
  {
    if k < |src| {
      PendingFromMonotone(src, t, u, k + 1);
    }
  }

  lemma {:induction false} PendingFromShrinks(src: seq<SourceItem>, t: Tree, u: Tree, k: nat, i: nat, key: string)
    requires t.Keys <= u.Keys && key in u && key !in t
    requires k <= i < |src| && Matches(src[i], key)
    ensures PendingFrom(src, u, k) < PendingFrom(src, t, k)
    decreases |src| - k
  {
    if k == i {
      PendingFromMonotone(src, t, u, k + 1);
    } else {
      PendingFromShrinks(src, t, u, k + 1, i, key);
    }
  }

  lemma {:induction false} PendingFromBound(src: seq<SourceItem>, t: Tree, k: nat)
    ensures PendingFrom(src, t, k) <= |src| - k || k > |src|
    decreases |src| - k
  {
    if k < |src| {
      PendingFromBound(src, t, k + 1);
    }
  }

  lemma UnvisitedMonotone(src: seq<SourceItem>, t: Tree, u: Tree)
    requires t.Keys <= u.Keys
    ensures Unvisited(src, u) <= Unvisited(src, t)
  {
    PendingFromMonotone(src, t, u, 0);
  }

  /** Recording a described package that was not a key when the scan started shrinks the measure below the scan's. */
  lemma ScanStepShrinks(src: seq<SourceItem>, t0: Tree, t: Tree, i: nat, key: string, edges: seq<Edge>)
    requires t0.Keys <= t.Keys && key !in t0
    requires i < |src| && Matches(src[i], key)
    ensures Unvisited(src, t[key := edges]) < Unvisited(src, t0)
  {
    PendingFromShrinks(src, t0, t[key := edges], 0, i, key);
  }

  lemma MatchIsSourceName(src: seq<SourceItem>, i: nat, key: string)
    requires i < |src| && Matches(src[i], key)
    ensures key in SourceNames(src)
  {
  }

  /**
   * The tree after building the subtree of `name` into `t` with the given
   * depth (deppy's `depth`, dep_vers's `rec`; negative is unlimited).
   */
  function Build(g: Generation, t: Tree, src: seq<SourceItem>, name: string, depth: int): (r: Tree)
    ensures t.Keys <= r.Keys
    decreases Unvisited(src, t), 1, 0
  {
    var key := Lower(name);
    if key in t || (g == DepVers && depth == 0) then t
    else Scan(g, t, t, src, 0, key, depth)
  }

  /**
   * The loop over the source items from index `i` on, for the package `key`
   * that was not a key of `t0` when the loop started. Every matching item
   * (there is no `break`) sets the entry of `key` and then, unless deppy's
   * depth is 0, builds each child with one less depth.
   */
  function Scan(g: Generation, t0: Tree, t: Tree, src: seq<SourceItem>, i: nat, key: string, depth: int): (r: Tree)
    requires i <= |src|
    requires key !in t0 && t0.Keys <= t.Keys
    ensures t.Keys <= r.Keys
    decreases Unvisited(src, t0), 0, |src| - i
  {
    if i == |src| then t
    else if Matches(src[i], key) then Scan(g, t0, Record(g, t0, t, src, i, key, depth), src, i + 1, key, depth)
    else Scan(g, t0, t, src, i + 1, key, depth)
  }

  /** One matching item: set the entry of `key` to its edges, then build the children unless the depth stops it. */
  function Record(g: Generation, t0: Tree, t: Tree, src: seq<SourceItem>, i: nat, key: string, depth: int): (r: Tree)
    requires i < |src| && Matches(src[i], key)
    requires key !in t0 && t0.Keys <= t.Keys
    ensures t.Keys + {key} <= r.Keys
    decreases Unvisited(src, t0), 0, 0
  {
    var edges := EdgesOf(g, src[i]);
    var t1 := t[key := edges];
    ScanStepShrinks(src, t0, t, i, key, edges);
    if g == DepVers || depth != 0 then Expand(g, t1, src, edges, 0, depth - 1) else t1
  }

  /** The loop over the children `edges[j..]`, building each one's subtree in turn. */
  function Expand(g: Generation, t: Tree, src: seq<SourceItem>, edges: seq<Edge>, j: nat, depth: int): (r: Tree)
    requires j <= |edges|
    ensures t.Keys <= r.Keys
    decreases Unvisited(src, t), 2, |edges| - j
  {
    if j == |edges| then t
    else
      var t1 := Build(g, t, src, edges[j].package, depth);
      UnvisitedMonotone(src, t, t1);
      Expand(g, t1, src, edges, j + 1, depth)
  }

  /** Building never changes an entry that was already there. */
  lemma {:induction false} BuildKeeps(g: Generation, t: Tree, src: seq<SourceItem>, name: string, depth: int)
    ensures forall k :: k in t ==> Build(g, t, src, name, depth)[k] == t[k]
    decreases Unvisited(src, t), 1, 0
  {
    var key := Lower(name);
    if !(key in t || (g == DepVers && depth == 0)) {
      ScanKeeps(g, t, t, src, 0, key, depth);
    }
  }

  lemma {:induction false} ScanKeeps(g: Generation, t0: Tree, t: Tree, src: seq<SourceItem>, i: nat, key: string, depth: int)
    requires i <= |src|
    requires key !in t0 && t0.Keys <= t.Keys
    ensures forall k :: k in t && k != key ==> Scan(g, t0, t, src, i, key, depth)[k] == t[k]
    decreases Unvisited(src, t0), 0, |src| - i
  {
    if i < |src| {
      if Matches(src[i], key) {
        RecordKeeps(g, t0, t, src, i, key, depth);
        ScanKeeps(g, t0, Record(g, t0, t, src, i, key, depth), src, i + 1, key, depth);
      } else {
        ScanKeeps(g, t0, t, src, i + 1, key, depth);
      }
    }
  }

  /** A matching item sets the entry of `key` to its edges, and its children's subtrees leave that entry and the others alone. */
  lemma {:induction false} RecordKeeps(g: Generation, t0: Tree, t: Tree, src: seq<SourceItem>, i: nat, key: string, depth: int)
    requires i < |src| && Matches(src[i], key)
    requires key !in t0 && t0.Keys <= t.Keys
    ensures Record(g, t0, t, src, i, key, depth)[key] == EdgesOf(g, src[i])
    ensures forall k :: k in t && k != key ==> Record(g, t0, t, src, i, key, depth)[k] == t[k]
    decreases Unvisited(src, t0), 0, 0
  {
    var edges := EdgesOf(g, src[i]);
    var t1 := t[key := edges];
    ScanStepShrinks(src, t0, t, i, key, edges);
    var r := Record(g, t0, t, src, i, key, depth);
    RecordUnfold(g, t0, t, src, i, key, depth);
    if g == DepVers || depth != 0 {
      ExpandKeeps(g, t1, src, edges, 0, depth - 1);
    }
    KeepsUpdate(t, key, edges, r);
  }

  lemma RecordUnfold(g: Generation, t0: Tree, t: Tree, src: seq<SourceItem>, i: nat, key: string, depth: int)
    requires i < |src| && Matches(src[i], key)
    requires key !in t0 && t0.Keys <= t.Keys
    ensures Record(g, t0, t, src, i, key, depth)
      == if g == DepVers || depth != 0
         then Expand(g, t[key := EdgesOf(g, src[i])], src, EdgesOf(g, src[i]), 0, depth - 1)
         else t[key := EdgesOf(g, src[i])]
  {
  }

  /** A tree that keeps every entry of `t[key := edges]` has `edges` at `key` and keeps the other entries of `t`. */
  lemma KeepsUpdate(t: Tree, key: string, edges: seq<Edge>, r: Tree)
    requires forall k :: k in t[key := edges] ==> k in r && r[k] == t[key := edges][k]
    ensures key in r && r[key] == edges
    ensures forall k :: k in t && k != key ==> k in r && r[k] == t[k]
  {
    assert key in t[key := edges];
  }

  lemma {:induction false} ExpandKeeps(g: Generation, t: Tree, src: seq<SourceItem>, edges: seq<Edge>, j: nat, depth: int)
    requires j <= |edges|
    ensures forall k :: k in t ==> Expand(g, t, src, edges, j, depth)[k] == t[k]
    decreases Unvisited(src, t), 2, |edges| - j
  {
    if j < |edges| {
      var t1 := Build(g, t, src, edges[j].package, depth);
      BuildKeeps(g, t, src, edges[j].package, depth);
      UnvisitedMonotone(src, t, t1);
      ExpandKeeps(g, t1, src, edges, j + 1, depth);
    }
  }

  /** No item from index `i` on describes `key`. */
  predicate NoMatchFrom(src: seq<SourceItem>, i: nat, key: string) {
    forall j :: i <= j < |src| ==> !Matches(src[j], key)
  }

  /** `src[j]` is the last item describing `key`. */
  predicate LastMatch(src: seq<SourceItem>, j: nat, key: string) {
    j < |src| && Matches(src[j], key) && NoMatchFrom(src, j + 1, key)
  }

  lemma LastMatchUnique(src: seq<SourceItem>, i: nat, j: nat, key: string)
    requires LastMatch(src, i, key) && LastMatch(src, j, key)
    ensures i == j
  {
  }

  /** When the items describe distinct names, each item is the last one describing its own name. */
  lemma LastMatchesOfDistinct(src: seq<SourceItem>, names: seq<string>)
    requires |src| == |names|
    requires forall i :: 0 <= i < |src| ==> src[i].packageKey.Some? && Lower(src[i].packageKey.value) == names[i]
    requires forall i, j :: 0 <= i < j < |names| ==> names[i] != names[j]
    ensures forall i :: 0 <= i < |src| ==> LastMatch(src, i, names[i])
  {
  }

  /** A scan that meets no item describing `key` changes nothing. */
  lemma {:induction false} ScanNoMatch(g: Generation, t0: Tree, t: Tree, src: seq<SourceItem>, i: nat, key: string, depth: int)
    requires i <= |src| && NoMatchFrom(src, i, key)
    requires key !in t0 && t0.Keys <= t.Keys
    ensures Scan(g, t0, t, src, i, key, depth) == t
    decreases |src| - i
  {
    if i < |src| {
      ScanNoMatch(g, t0, t, src, i + 1, key, depth);
    }
  }

  /** After the scan, the entry of `key` is the edge list of the last item describing it. */
  lemma {:induction false} ScanLast(g: Generation, t0: Tree, t: Tree, src: seq<SourceItem>, i: nat, key: string, depth: int, j: nat)
    requires i <= j && LastMatch(src, j, key)
    requires key !in t0 && t0.Keys <= t.Keys
    ensures key in Scan(g, t0, t, src, i, key, depth) && Scan(g, t0, t, src, i, key, depth)[key] == EdgesOf(g, src[j])
    decreases |src| - i
  {
    if i == j {
      RecordKeeps(g, t0, t, src, i, key, depth);
      ScanNoMatch(g, t0, Record(g, t0, t, src, i, key, depth), src, i + 1, key, depth);
    } else if Matches(src[i], key) {
      ScanLast(g, t0, Record(g, t0, t, src, i, key, depth), src, i + 1, key, depth, j);
    } else {
      ScanLast(g, t0, t, src, i + 1, key, depth, j);
    }
  }

  /**
   * A root that no source item describes adds nothing; in particular building
   * into an empty tree gives an empty tree.
   */
  lemma BuildUnknownRoot(g: Generation, t: Tree, src: seq<SourceItem>, name: string, depth: int)
    requires Lower(name) !in SourceNames(src)
    ensures Build(g, t, src, name, depth) == t
  {
    var key := Lower(name);
    if key !in t && !(g == DepVers && depth == 0) {
      forall j | 0 <= j < |src|
        ensures !Matches(src[j], key)
      {
        if Matches(src[j], key) {
          MatchIsSourceName(src, j, key);
        }
      }
      ScanNoMatch(g, t, t, src, 0, key, depth);
    }
  }

  /**
   * A root that is already a key is not built again, and otherwise (unless
   * dep_vers is called with depth 0) its entry is the edge list of the last
   * item describing it: a later duplicate item overwrites an earlier one.
   */
  lemma BuildRecordsRoot(g: Generation, t: Tree, src: seq<SourceItem>, name: string, depth: int, j: nat)
    requires LastMatch(src, j, Lower(name))
    ensures Lower(name) in t ==> Build(g, t, src, name, depth) == t
    ensures Lower(name) !in t && (g == Deppy || depth != 0) ==>
              Lower(name) in Build(g, t, src, name, depth) && Build(g, t, src, name, depth)[Lower(name)] == EdgesOf(g, src[j])
  {
    var key := Lower(name);
    if key !in t && (g == Deppy || depth != 0) {
      ScanLast(g, t, t, src, 0, key, depth, j);
    }
  }

  /** dep_vers with depth 0 builds nothing, so a loop over children with depth 0 changes nothing. */
  lemma {:induction false} ExpandDepVersDepthZero(t: Tree, src: seq<SourceItem>, edges: seq<Edge>, j: nat)
    requires j <= |edges|
    ensures Expand(DepVers, t, src, edges, j, 0) == t
    decreases |edges| - j
  {
    if j < |edges| {
      ExpandDepVersDepthZero(t, src, edges, j + 1);
    }
  }

  /** At the depths that record the root only, the scan adds no key but the root's. */
  lemma {:induction false} ScanRootOnly(g: Generation, t0: Tree, t: Tree, src: seq<SourceItem>, i: nat, key: string, depth: int)
    requires i <= |src|
    requires key !in t0 && t0.Keys <= t.Keys
    requires (g == Deppy && depth == 0) || (g == DepVers && depth == 1)
    ensures Scan(g, t0, t, src, i, key, depth).Keys <= t.Keys + {key}
    decreases |src| - i
  {
    if i < |src| {
      if Matches(src[i], key) {
        var edges := EdgesOf(g, src[i]);
        var t1 := t[key := edges];
        if g == DepVers {
          ExpandDepVersDepthZero(t1, src, edges, 0);
        }
        assert Record(g, t0, t, src, i, key, depth) == t1;
        ScanRootOnly(g, t0, t1, src, i + 1, key, depth);
      } else {
        ScanRootOnly(g, t0, t, src, i + 1, key, depth);
      }
    }
  }

  /** Some item at or after `j` is the last one describing `key`. */
  lemma {:induction false} LastMatchAtOrAfter(src: seq<SourceItem>, j: nat, key: string) returns (last: nat)
    requires j < |src| && Matches(src[j], key)
    ensures j <= last && LastMatch(src, last, key)
    decreases |src| - j
  {
    if NoMatchFrom(src, j + 1, key) {
      last := j;
    } else {
      var k :| j + 1 <= k < |src| && Matches(src[k], key);
      last := LastMatchAtOrAfter(src, k, key);
    }
  }

  /**
   * deppy with depth 0 and dep_vers with depth 1 record the root only: the
   * result is the given tree plus, when some item describes the root, its
   * entry.
   */
  lemma BuildRootOnly(g: Generation, t: Tree, src: seq<SourceItem>, name: string, depth: int)
    requires (g == Deppy && depth == 0) || (g == DepVers && depth == 1)
    ensures Build(g, t, src, name, depth) == t
            || exists j: nat :: LastMatch(src, j, Lower(name)) && Lower(name) !in t
                           && Build(g, t, src, name, depth) == t[Lower(name) := EdgesOf(g, src[j])]
  {
    var key := Lower(name);
    if key !in t {
      var r := Scan(g, t, t, src, 0, key, depth);
      if NoMatchFrom(src, 0, key) {
        ScanNoMatch(g, t, t, src, 0, key, depth);
      } else {
        var j :| 0 <= j < |src| && Matches(src[j], key);
        var last := LastMatchAtOrAfter(src, j, key);
        ScanRootOnly(g, t, t, src, 0, key, depth);
        ScanLast(g, t, t, src, 0, key, depth, last);
        ScanKeeps(g, t, t, src, 0, key, depth);
        UpdateFromParts(t, r, key, EdgesOf(g, src[last]));
      }
    }
  }

  /** A tree with the keys of `t` and `key`, the value `v` at `key` and the other entries of `t` is `t[key := v]`. */
  lemma UpdateFromParts(t: Tree, r: Tree, key: string, v: seq<Edge>)
    requires t.Keys <= r.Keys && r.Keys <= t.Keys + {key}
    requires key in r && r[key] == v
    requires forall k :: k in t && k != key ==> r[k] == t[k]
    ensures r == t[key := v]
  {
  }

  /** One step of a walk through the source: the item taken and the dependency edge followed. */
  datatype Hop = Hop(item: nat, edge: Edge)

  /**
   * Where the walk `w` from the name `x` ends: each hop takes an item that
   * describes the current name and follows one of its edges. `None` when a
   * hop does not fit.
   */
  function Walk(g: Generation, src: seq<SourceItem>, x: string, w: seq<Hop>): Option<string>
    decreases |w|
  {
    if w == [] then Some(x)
    else if w[0].item < |src| && Matches(src[w[0].item], x) && w[0].edge in EdgesOf(g, src[w[0].item]) then
      Walk(g, src, Lower(w[0].edge.package), w[1..])
    else None
  }

  /** `y` is reachable from `x` along at most `n` source edges. */
  ghost predicate Within(g: Generation, src: seq<SourceItem>, x: string, y: string, n: int) {
    exists w :: |w| <= n && Walk(g, src, x, w) == Some(y)
  }

  lemma WalkPrepend(g: Generation, src: seq<SourceItem>, x: string, h: Hop, w: seq<Hop>)
    requires h.item < |src| && Matches(src[h.item], x) && h.edge in EdgesOf(g, src[h.item])
    ensures Walk(g, src, x, [h] + w) == Walk(g, src, Lower(h.edge.package), w)
  {
    assert ([h] + w)[1..] == w;
  }

  /** Every walk in `paths` starts at `x`, ends at its key and has at most `n` hops. */
  ghost predicate Walks(g: Generation, src: seq<SourceItem>, x: string, paths: map<string, seq<Hop>>, n: int) {
    forall y :: y in paths ==> |paths[y]| <= n && Walk(g, src, x, paths[y]) == Some(y)
  }

  /** Every key `r` has and `t` has not is a key of `paths`. */
  ghost predicate Covers(paths: map<string, seq<Hop>>, t: Tree, r: Tree) {
    r.Keys - t.Keys <= paths.Keys
  }

  /** How far from the root a depth lets the builder go: deppy records children `depth` edges away, dep_vers one less. */
  function Horizon(g: Generation, depth: int): int {
    if g == Deppy then depth else depth - 1
  }

  /** `n` edges suffice for a build with this depth into `t`: the depth bounds the distance, or the unvisited names do. */
  ghost predicate ReachBound(g: Generation, src: seq<SourceItem>, t: Tree, depth: int, n: int) {
    (depth >= 0 && n >= Horizon(g, depth)) || n >= Unvisited(src, t)
  }

  /** The walks to everything a build adds, each of at most `n` hops. */
  lemma {:induction false} BuildReach(g: Generation, t: Tree, src: seq<SourceItem>, name: string, depth: int, n: int)
    returns (paths: map<string, seq<Hop>>)
    requires ReachBound(g, src, t, depth, n)
    ensures Walks(g, src, Lower(name), paths, n) && Covers(paths, t, Build(g, t, src, name, depth))
    decreases Unvisited(src, t), 1, 0
  {
    var key := Lower(name);
    if key in t || (g == DepVers && depth == 0) {
      paths := map[];
    } else {
      paths := ScanReach(g, t, t, src, 0, key, depth, n, map[]);
    }
  }

  lemma {:induction false} ScanReach(g: Generation, t0: Tree, t: Tree, src: seq<SourceItem>, i: nat, key: string, depth: int, n: int,
                                     paths0: map<string, seq<Hop>>)
    returns (paths: map<string, seq<Hop>>)
    requires i <= |src|
    requires key !in t0 && t0.Keys <= t.Keys
    requires g == DepVers ==> depth != 0
    requires ReachBound(g, src, t0, depth, n)
    requires Walks(g, src, key, paths0, n) && Covers(paths0, t0, t)
    ensures Walks(g, src, key, paths, n) && Covers(paths, t0, Scan(g, t0, t, src, i, key, depth))
    decreases Unvisited(src, t0), 0, |src| - i
  {
    if i == |src| {
      paths := paths0;
    } else if Matches(src[i], key) {
      var p1 := RecordReach(g, t0, t, src, i, key, depth, n, paths0);
      paths := ScanReach(g, t0, Record(g, t0, t, src, i, key, depth), src, i + 1, key, depth, n, p1);
    } else {
      paths := ScanReach(g, t0, t, src, i + 1, key, depth, n, paths0);
    }
  }

  lemma RecordReach(g: Generation, t0: Tree, t: Tree, src: seq<SourceItem>, i: nat, key: string, depth: int, n: int,
                    paths0: map<string, seq<Hop>>)
    returns (paths: map<string, seq<Hop>>)
    requires i < |src| && Matches(src[i], key)
    requires key !in t0 && t0.Keys <= t.Keys
    requires g == DepVers ==> depth != 0
    requires ReachBound(g, src, t0, depth, n)
    requires Walks(g, src, key, paths0, n) && Covers(paths0, t0, t)
    ensures Walks(g, src, key, paths, n) && Covers(paths, t0, Record(g, t0, t, src, i, key, depth))
    decreases Unvisited(src, t0), 0, 0
  {
    var edges := EdgesOf(g, src[i]);
    var t1 := t[key := edges];
    RecordBound(g, t0, t, src, i, key, depth, n);
    var p1 := paths0[key := []];
    WalksRoot(g, src, key, paths0, n);
    CoversRoot(paths0, t0, t, key, edges);
    RecordUnfold(g, t0, t, src, i, key, depth);
    if g == DepVers || depth != 0 {
      paths := ExpandReach(g, t0, t1, src, edges, 0, depth - 1, n, key, i, p1, Record(g, t0, t, src, i, key, depth));
    } else {
      paths := p1;
    }
  }

  /**
   * The walks from `parent` gathered so far in `acc`, extended by the walks to
   * everything the children's subtrees add on the way to the tree `r` the loop ends with.
   */
  lemma {:induction false} ExpandReach(g: Generation, t0: Tree, t: Tree, src: seq<SourceItem>, edges: seq<Edge>, j: nat, depth: int, n: int,
                                       parent: string, i: nat, acc: map<string, seq<Hop>>, r: Tree)
    returns (paths: map<string, seq<Hop>>)
    requires j <= |edges| && r == Expand(g, t, src, edges, j, depth)
    requires i < |src| && Matches(src[i], parent) && edges == EdgesOf(g, src[i])
    requires ReachBound(g, src, t, depth, n - 1)
    requires Walks(g, src, parent, acc, n) && Covers(acc, t0, t)
    ensures Walks(g, src, parent, paths, n) && Covers(paths, t0, r)
    decreases Unvisited(src, t), 2, |edges| - j
  {
    if j == |edges| {
      paths := acc;
    } else {
      var t1 := Build(g, t, src, edges[j].package, depth);
      var child := BuildReach(g, t, src, edges[j].package, depth, n - 1);
      assert edges[j] in EdgesOf(g, src[i]);
      var p1 := WalksPrepend(g, src, parent, Hop(i, edges[j]), child, n);
      WalksMerge(g, src, parent, acc, p1, n);
      CoversMerge(acc, p1, t0, t, t1);
      UnvisitedMonotone(src, t, t1);
      ExpandUnfold(g, t, src, edges, j, depth);
      paths := ExpandReach(g, t0, t1, src, edges, j + 1, depth, n, parent, i, acc + p1, r);
    }
  }

  lemma BuildUnfold(g: Generation, t: Tree, src: seq<SourceItem>, name: string, depth: int)
    ensures Build(g, t, src, name, depth)
      == if Lower(name) in t || (g == DepVers && depth == 0) then t else Scan(g, t, t, src, 0, Lower(name), depth)
  {
  }

  lemma ScanUnfold(g: Generation, t0: Tree, t: Tree, src: seq<SourceItem>, i: nat, key: string, depth: int)
    requires i < |src|
    requires key !in t0 && t0.Keys <= t.Keys
    ensures Scan(g, t0, t, src, i, key, depth)
      == if Matches(src[i], key) then Scan(g, t0, Record(g, t0, t, src, i, key, depth), src, i + 1, key, depth)
         else Scan(g, t0, t, src, i + 1, key, depth)
  {
  }

  lemma ExpandUnfold(g: Generation, t: Tree, src: seq<SourceItem>, edges: seq<Edge>, j: nat, depth: int)
    requires j < |edges|
    ensures Expand(g, t, src, edges, j, depth) == Expand(g, Build(g, t, src, edges[j].package, depth), src, edges, j + 1, depth)
  {
  }

  /** The entry recorded for a matching item shrinks the measure, and its children fit in one edge less. */
  lemma RecordBound(g: Generation, t0: Tree, t: Tree, src: seq<SourceItem>, i: nat, key: string, depth: int, n: int)
    requires i < |src| && Matches(src[i], key)
    requires key !in t0 && t0.Keys <= t.Keys
    requires g == DepVers ==> depth != 0
    requires ReachBound(g, src, t0, depth, n)
    ensures Unvisited(src, t[key := EdgesOf(g, src[i])]) < Unvisited(src, t0)
    ensures n >= 0
    ensures g == DepVers || depth != 0 ==> ReachBound(g, src, t[key := EdgesOf(g, src[i])], depth - 1, n - 1)
  {
    ScanStepShrinks(src, t0, t, i, key, EdgesOf(g, src[i]));
  }

  /** The root is reached by the empty walk. */
  lemma WalksRoot(g: Generation, src: seq<SourceItem>, x: string, paths: map<string, seq<Hop>>, n: int)
    requires Walks(g, src, x, paths, n) && n >= 0
    ensures Walks(g, src, x, paths[x := []], n)
  {
  }

  lemma CoversRoot(paths: map<string, seq<Hop>>, t0: Tree, t: Tree, key: string, edges: seq<Edge>)
    requires Covers(paths, t0, t)
    ensures Covers(paths[key := []], t0, t[key := edges])
  {
  }

  lemma WalksMerge(g: Generation, src: seq<SourceItem>, x: string, p1: map<string, seq<Hop>>, p2: map<string, seq<Hop>>, n: int)
    requires Walks(g, src, x, p1, n) && Walks(g, src, x, p2, n)
    ensures Walks(g, src, x, p1 + p2, n)
  {
  }

  lemma CoversMerge(p1: map<string, seq<Hop>>, p2: map<string, seq<Hop>>, t: Tree, t1: Tree, r: Tree)
    requires Covers(p1, t, t1) && Covers(p2, t1, r)
    ensures Covers(p1 + p2, t, r)
  {
  }

  /** Walks from a child become walks from its parent, one hop longer, with the same keys. */
  lemma WalksPrepend(g: Generation, src: seq<SourceItem>, x: string, h: Hop, child: map<string, seq<Hop>>, n: int)
    returns (paths: map<string, seq<Hop>>)
    requires h.item < |src| && Matches(src[h.item], x) && h.edge in EdgesOf(g, src[h.item])
    requires Walks(g, src, Lower(h.edge.package), child, n - 1)
    ensures Walks(g, src, x, paths, n) && paths.Keys == child.Keys
  {
    paths := map y | y in child :: [h] + child[y];
    forall y | y in paths
      ensures |paths[y]| <= n && Walk(g, src, x, paths[y]) == Some(y)
    {
      WalkPrepend(g, src, x, h, child[y]);
    }
  }

  /**
   * The tree holds only packages reachable from the root: within `depth` edges
   * for deppy and `depth - 1` for dep_vers, and along some walk through the
   * source when the depth is unlimited. An unrelated source item never enters it.
   */
  lemma BuildOnlyReachable(g: Generation, src: seq<SourceItem>, name: string, depth: int)
    ensures forall y :: y in Build(g, map[], src, name, depth) ==>
              Within(g, src, Lower(name), y, if depth >= 0 then Horizon(g, depth) else |src|)
  {
    var n := if depth >= 0 then Horizon(g, depth) else |src|;
    PendingFromBound(src, map[], 0);
    var paths := BuildReach(g, map[], src, name, depth, n);
    forall y | y in Build(g, map[], src, name, depth)
      ensures Within(g, src, Lower(name), y, n)
    {
      assert |paths[y]| <= n && Walk(g, src, Lower(name), paths[y]) == Some(y);
    }
  }

  /** A walk ends where it started or at the lower-cased target of some item's edge. */
  lemma {:induction false} WalkEndsAtEdge(g: Generation, src: seq<SourceItem>, x: string, w: seq<Hop>, y: string)
    requires Walk(g, src, x, w) == Some(y)
    ensures y == x || exists i, e :: 0 <= i < |src| && e in EdgesOf(g, src[i]) && y == Lower(e.package)
    decreases |w|
  {
    if w != [] {
      WalkEndsAtEdge(g, src, Lower(w[0].edge.package), w[1..], y);
    }
  }

  /** Every key of a tree built from scratch is the root or the lower-cased target of some item's edge. */
  lemma BuildKeysAreTargets(g: Generation, src: seq<SourceItem>, name: string, depth: int)
    ensures forall y :: y in Build(g, map[], src, name, depth) ==>
              y == Lower(name) || exists i, e :: 0 <= i < |src| && e in EdgesOf(g, src[i]) && y == Lower(e.package)
  {
    var n := if depth >= 0 then Horizon(g, depth) else |src|;
    BuildOnlyReachable(g, src, name, depth);
    forall y | y in Build(g, map[], src, name, depth)
      ensures y == Lower(name) || exists i, e :: 0 <= i < |src| && e in EdgesOf(g, src[i]) && y == Lower(e.package)
    {
      var w :| |w| <= n && Walk(g, src, Lower(name), w) == Some(y);
      WalkEndsAtEdge(g, src, Lower(name), w, y);
    }
  }

  /** A walk ends where it started or at a lower-cased name: every hop lower-cases the edge it follows. */
  lemma {:induction false} WalkEndsLower(g: Generation, src: seq<SourceItem>, x: string, w: seq<Hop>, y: string)
    requires Walk(g, src, x, w) == Some(y)
    ensures y == x || IsLower(y)
    decreases |w|
  {
    if w != [] {
      LowerIsLower(w[0].edge.package);
      WalkEndsLower(g, src, Lower(w[0].edge.package), w[1..], y);
    }
  }

  /** Every key of a tree built from scratch is lower-cased, whatever case the root was given in. */
  lemma BuildKeysLower(g: Generation, src: seq<SourceItem>, name: string, depth: int)
    ensures forall y :: y in Build(g, map[], src, name, depth) ==> IsLower(y)
  {
    var n := if depth >= 0 then Horizon(g, depth) else |src|;
    BuildOnlyReachable(g, src, name, depth);
    LowerIsLower(name);
    forall y | y in Build(g, map[], src, name, depth)
      ensures IsLower(y)
    {
      var w :| |w| <= n && Walk(g, src, Lower(name), w) == Some(y);
      WalkEndsLower(g, src, Lower(name), w, y);
    }
  }

  /**
   * Building from scratch records the root exactly when some item describes
   * it, except for dep_vers with depth 0, which records nothing.
   */
  lemma BuildRootRecorded(g: Generation, src: seq<SourceItem>, name: string, depth: int)
    requires g == Deppy || depth != 0
    ensures Lower(name) in Build(g, map[], src, name, depth) <==> Lower(name) in SourceNames(src)
  {
    var key := Lower(name);
    if key in SourceNames(src) {
      var j :| 0 <= j < |src| && src[j].packageKey.Some? && Lower(src[j].packageKey.value) == key;
      var last := LastMatchAtOrAfter(src, j, key);
      BuildRecordsRoot(g, map[], src, name, depth, last);
    } else {
      BuildUnknownRoot(g, map[], src, name, depth);
    }
  }

  /** The entry of `k` is the edge list of the last item describing `k`. */
  ghost predicate EntryFromSource(g: Generation, src: seq<SourceItem>, t: Tree, k: string) {
    k in t && exists j: nat :: LastMatch(src, j, k) && t[k] == EdgesOf(g, src[j])
  }

  ghost predicate FromSource(g: Generation, src: seq<SourceItem>, t: Tree, keys: set<string>) {
    forall k :: k in keys ==> EntryFromSource(g, src, t, k)
  }

  lemma FromSourceGrows(g: Generation, src: seq<SourceItem>, t: Tree, u: Tree, keys: set<string>)
    requires FromSource(g, src, t, keys)
    requires t.Keys <= u.Keys && forall k :: k in keys ==> u[k] == t[k]
    ensures FromSource(g, src, u, keys)
  {
    forall k | k in keys
      ensures EntryFromSource(g, src, u, k)
    {
      assert EntryFromSource(g, src, t, k);
      var j: nat :| LastMatch(src, j, k) && t[k] == EdgesOf(g, src[j]);
      assert u[k] == EdgesOf(g, src[j]);
    }
  }

  /** Every entry a build adds holds the edges of the last item describing its key. */
  lemma {:induction false} BuildFromSource(g: Generation, t: Tree, src: seq<SourceItem>, name: string, depth: int)
    ensures FromSource(g, src, Build(g, t, src, name, depth), Build(g, t, src, name, depth).Keys - t.Keys)
    decreases Unvisited(src, t), 1, 0
  {
    var key := Lower(name);
    if !(key in t || (g == DepVers && depth == 0)) {
      var r := Scan(g, t, t, src, 0, key, depth);
      ScanFromSource(g, t, t, src, 0, key, depth);
      if !NoMatchFrom(src, 0, key) {
        var i :| 0 <= i < |src| && Matches(src[i], key);
        var last := LastMatchAtOrAfter(src, i, key);
        ScanLast(g, t, t, src, 0, key, depth, last);
        assert EntryFromSource(g, src, r, key);
      } else {
        ScanNoMatch(g, t, t, src, 0, key, depth);
      }
    }
  }

  /** The scan's additions other than `key` itself (whose entry `ScanLast` gives) hold their last items' edges. */
  lemma {:induction false} ScanFromSource(g: Generation, t0: Tree, t: Tree, src: seq<SourceItem>, i: nat, key: string, depth: int)
    requires i <= |src|
    requires key !in t0 && t0.Keys <= t.Keys
    requires FromSource(g, src, t, t.Keys - t0.Keys - {key})
    ensures var r := Scan(g, t0, t, src, i, key, depth);
            FromSource(g, src, r, r.Keys - t0.Keys - {key})
    decreases Unvisited(src, t0), 0, |src| - i
  {
    if i < |src| {
      if Matches(src[i], key) {
        RecordFromSource(g, t0, t, src, i, key, depth);
        ScanFromSource(g, t0, Record(g, t0, t, src, i, key, depth), src, i + 1, key, depth);
      } else {
        ScanFromSource(g, t0, t, src, i + 1, key, depth);
      }
    }
  }

  lemma RecordFromSource(g: Generation, t0: Tree, t: Tree, src: seq<SourceItem>, i: nat, key: string, depth: int)
    requires i < |src| && Matches(src[i], key)
    requires key !in t0 && t0.Keys <= t.Keys
    requires FromSource(g, src, t, t.Keys - t0.Keys - {key})
    ensures var r := Record(g, t0, t, src, i, key, depth);
            FromSource(g, src, r, r.Keys - t0.Keys - {key})
    decreases Unvisited(src, t0), 0, 0
  {
    var edges := EdgesOf(g, src[i]);
    var t1 := t[key := edges];
    ScanStepShrinks(src, t0, t, i, key, edges);
    RecordUnfold(g, t0, t, src, i, key, depth);
    var r := Record(g, t0, t, src, i, key, depth);
    if g == DepVers || depth != 0 {
      ExpandFromSource(g, t1, src, edges, 0, depth - 1);
      ExpandKeeps(g, t1, src, edges, 0, depth - 1);
    }
    FromSourceGrows(g, src, t, r, t.Keys - t0.Keys - {key});
  }

  lemma {:induction false} ExpandFromSource(g: Generation, t: Tree, src: seq<SourceItem>, edges: seq<Edge>, j: nat, depth: int)
    requires j <= |edges|
    ensures FromSource(g, src, Expand(g, t, src, edges, j, depth), Expand(g, t, src, edges, j, depth).Keys - t.Keys)
    decreases Unvisited(src, t), 2, |edges| - j
  {
    if j < |edges| {
      var t1 := Build(g, t, src, edges[j].package, depth);
      BuildFromSource(g, t, src, edges[j].package, depth);
      UnvisitedMonotone(src, t, t1);
      ExpandFromSource(g, t1, src, edges, j + 1, depth);
      ExpandKeeps(g, t1, src, edges, j + 1, depth);
      var r := Expand(g, t1, src, edges, j + 1, depth);
      assert Expand(g, t, src, edges, j, depth) == r;
      FromSourceGrows(g, src, t1, r, t1.Keys - t.Keys);
    }
  }

  /**
   * Every key of a tree built from scratch, not only the root, holds the edge
   * list of the last item describing it: each child is recorded by the same
   * loop that records the root.
   */
  lemma BuildEntries(g: Generation, src: seq<SourceItem>, name: string, depth: int)
    ensures forall k :: k in Build(g, map[], src, name, depth) ==>
              exists j: nat :: LastMatch(src, j, k) && Build(g, map[], src, name, depth)[k] == EdgesOf(g, src[j])
  {
    var e: Tree := map[];
    BuildFromSource(g, e, src, name, depth);
    var r := Build(g, e, src, name, depth);
    forall k | k in r
      ensures exists j: nat :: LastMatch(src, j, k) && r[k] == EdgesOf(g, src[j])
    {
      assert k in r.Keys - e.Keys;
      assert EntryFromSource(g, src, r, k);
    }
  }

  /** The entry of a key of a built tree is the edge list of the last item describing the key. */
  lemma BuildEntryOf(g: Generation, src: seq<SourceItem>, name: string, depth: int, i: nat, k: string)
    requires LastMatch(src, i, k) && k in Build(g, map[], src, name, depth)
    ensures Build(g, map[], src, name, depth)[k] == EdgesOf(g, src[i])
  {
    BuildEntries(g, src, name, depth);
    var j: nat :| LastMatch(src, j, k) && Build(g, map[], src, name, depth)[k] == EdgesOf(g, src[j]);
    LastMatchUnique(src, i, j, k);
  }

  /** Every edge of the entry of `k` leads to a key of the tree, or to a name no source item describes. */
  ghost predicate EntryClosed(src: seq<SourceItem>, t: Tree, k: string) {
    k in t && forall e :: e in t[k] ==> Lower(e.package) in t || Lower(e.package) !in SourceNames(src)
  }

  ghost predicate Closed(src: seq<SourceItem>, t: Tree, keys: set<string>) {
    forall k :: k in keys ==> EntryClosed(src, t, k)
  }

  lemma ClosedGrows(src: seq<SourceItem>, t: Tree, u: Tree, keys: set<string>)
    requires Closed(src, t, keys)
    requires t.Keys <= u.Keys && forall k :: k in keys ==> u[k] == t[k]
    ensures Closed(src, u, keys)
  {
    forall k | k in keys
      ensures EntryClosed(src, u, k)
    {
      assert EntryClosed(src, t, k);
    }
  }

  lemma ClosedUnion(src: seq<SourceItem>, t: Tree, a: set<string>, b: set<string>, c: set<string>)
    requires Closed(src, t, a) && Closed(src, t, b) && c <= a + b
    ensures Closed(src, t, c)
  {
  }

  lemma {:induction false} BuildClosed(g: Generation, t: Tree, src: seq<SourceItem>, name: string, depth: int)
    requires depth < 0
    ensures Closed(src, Build(g, t, src, name, depth), Build(g, t, src, name, depth).Keys - t.Keys)
    ensures Lower(name) in Build(g, t, src, name, depth) || Lower(name) !in SourceNames(src)
    decreases Unvisited(src, t), 1, 0
  {
    var key := Lower(name);
    if key !in t {
      ScanClosed(g, t, t, src, 0, key, depth);
      if key in SourceNames(src) {
        var i :| 0 <= i < |src| && src[i].packageKey.Some? && Lower(src[i].packageKey.value) == key;
        var last := LastMatchAtOrAfter(src, i, key);
        ScanLast(g, t, t, src, 0, key, depth, last);
      }
    }
  }

  lemma {:induction false} ScanClosed(g: Generation, t0: Tree, t: Tree, src: seq<SourceItem>, i: nat, key: string, depth: int)
    requires i <= |src| && depth < 0
    requires key !in t0 && t0.Keys <= t.Keys
    requires Closed(src, t, t.Keys - t0.Keys)
    ensures Closed(src, Scan(g, t0, t, src, i, key, depth), Scan(g, t0, t, src, i, key, depth).Keys - t0.Keys)
    decreases Unvisited(src, t0), 0, |src| - i
  {
    if i < |src| {
      if Matches(src[i], key) {
        RecordClosed(g, t0, t, src, i, key, depth);
        ScanClosed(g, t0, Record(g, t0, t, src, i, key, depth), src, i + 1, key, depth);
      } else {
        ScanClosed(g, t0, t, src, i + 1, key, depth);
      }
    }
  }

  /** One matching item of the scan: its entry and everything its children's subtrees add are closed. */
  lemma RecordClosed(g: Generation, t0: Tree, t: Tree, src: seq<SourceItem>, i: nat, key: string, depth: int)
    requires i < |src| && depth < 0 && Matches(src[i], key)
    requires key !in t0 && t0.Keys <= t.Keys
    requires Closed(src, t, t.Keys - t0.Keys)
    ensures var r := Record(g, t0, t, src, i, key, depth);
            Closed(src, r, r.Keys - t0.Keys)
    decreases Unvisited(src, t0), 0, 0
  {
    var edges := EdgesOf(g, src[i]);
    var t1 := t[key := edges];
    ScanStepShrinks(src, t0, t, i, key, edges);
    var r := Expand(g, t1, src, edges, 0, depth - 1);
    RecordUnfold(g, t0, t, src, i, key, depth);
    ExpandClosed(g, t1, src, edges, 0, depth - 1);
    ExpandKeeps(g, t1, src, edges, 0, depth - 1);
    ClosedStep(src, t0, t, key, edges, r);
  }

  /** Entries closed before, the new entry `key` whose edges all lead into `r`, and closed additions make a closed tree. */
  lemma ClosedStep(src: seq<SourceItem>, t0: Tree, t: Tree, key: string, edges: seq<Edge>, r: Tree)
    requires key !in t0 && t0.Keys <= t.Keys
    requires Closed(src, t, t.Keys - t0.Keys)
    requires t[key := edges].Keys <= r.Keys && forall k :: k in t[key := edges] ==> r[k] == t[key := edges][k]
    requires Closed(src, r, r.Keys - t[key := edges].Keys)
    requires forall k :: 0 <= k < |edges| ==> Lower(edges[k].package) in r || Lower(edges[k].package) !in SourceNames(src)
    ensures Closed(src, r, r.Keys - t0.Keys)
  {
    var t1 := t[key := edges];
    ClosedGrows(src, t, r, t.Keys - t0.Keys - {key});
    assert EntryClosed(src, r, key) by {
      assert r[key] == edges;
      forall e | e in edges
        ensures Lower(e.package) in r || Lower(e.package) !in SourceNames(src)
      {
        var k :| 0 <= k < |edges| && edges[k] == e;
      }
    }
    ClosedUnion(src, r, t.Keys - t0.Keys - {key}, {key} + (r.Keys - t1.Keys), r.Keys - t0.Keys);
  }

  lemma {:induction false} ExpandClosed(g: Generation, t: Tree, src: seq<SourceItem>, edges: seq<Edge>, j: nat, depth: int)
    requires j <= |edges| && depth < 0
    ensures Closed(src, Expand(g, t, src, edges, j, depth), Expand(g, t, src, edges, j, depth).Keys - t.Keys)
    ensures forall k :: j <= k < |edges| ==>
              Lower(edges[k].package) in Expand(g, t, src, edges, j, depth) || Lower(edges[k].package) !in SourceNames(src)
    decreases Unvisited(src, t), 2, |edges| - j
  {
    if j < |edges| {
      var t1 := Build(g, t, src, edges[j].package, depth);
      BuildClosed(g, t, src, edges[j].package, depth);
      UnvisitedMonotone(src, t, t1);
      ExpandClosed(g, t1, src, edges, j + 1, depth);
      ExpandKeeps(g, t1, src, edges, j + 1, depth);
      var r := Expand(g, t1, src, edges, j + 1, depth);
      assert Expand(g, t, src, edges, j, depth) == r;
      ClosedGrows(src, t1, r, t1.Keys - t.Keys);
      ClosedUnion(src, r, t1.Keys - t.Keys, r.Keys - t1.Keys, r.Keys - t.Keys);
      assert t1.Keys <= r.Keys;
      forall k | j <= k < |edges|
        ensures Lower(edges[k].package) in r || Lower(edges[k].package) !in SourceNames(src)
      {
        if k == j {
          assert Lower(edges[j].package) in t1 || Lower(edges[j].package) !in SourceNames(src);
        }
      }
    } else {
      assert Expand(g, t, src, edges, j, depth) == t;
      assert t.Keys - t.Keys == {};
    }
  }

  /**
   * With unlimited depth the tree is closed: the root is recorded when the
   * source describes it, and every edge of every recorded entry leads to
   * another entry unless the source does not describe that package.
   */
  lemma UnlimitedBuildClosed(g: Generation, src: seq<SourceItem>, name: string, depth: int)
    requires depth < 0
    ensures var r := Build(g, map[], src, name, depth);
            (Lower(name) in SourceNames(src) ==> Lower(name) in r) && Closed(src, r, r.Keys)
  {
    BuildClosed(g, map[], src, name, depth);
  }

  /** `src[i]` describes a package and is the last item that does. */
  predicate LastItem(src: seq<SourceItem>, i: nat) {
    i < |src| && src[i].packageKey.Some? && NoMatchFrom(src, i + 1, Lower(src[i].packageKey.value))
  }

  /**
   * Every hop of `w` takes the last item describing the name it leaves, the
   * one whose edges the builder keeps; when `pipdeptree` lists each package
   * once, every walk does.
   */
  ghost predicate TakesLastItems(src: seq<SourceItem>, w: seq<Hop>) {
    forall k :: 0 <= k < |w| ==> LastItem(src, w[k].item)
  }

  /** In a closed tree whose entries come from the source, an edge of the last item describing a key leads to a key or to an undescribed name. */
  lemma HopIntoTree(g: Generation, src: seq<SourceItem>, r: Tree, x: string, h: Hop)
    requires Closed(src, r, r.Keys) && FromSource(g, src, r, r.Keys)
    requires x in r && LastMatch(src, h.item, x) && h.edge in EdgesOf(g, src[h.item])
    ensures Lower(h.edge.package) in r || Lower(h.edge.package) !in SourceNames(src)
  {
    assert EntryFromSource(g, src, r, x);
    var j: nat :| LastMatch(src, j, x) && r[x] == EdgesOf(g, src[j]);
    LastMatchUnique(src, j, h.item, x);
    assert EntryClosed(src, r, x);
  }

  lemma TakesLastItemsTail(src: seq<SourceItem>, w: seq<Hop>)
    requires w != [] && TakesLastItems(src, w)
    ensures LastItem(src, w[0].item) && TakesLastItems(src, w[1..])
  {
    forall k | 0 <= k < |w[1..]|
      ensures LastItem(src, w[1..][k].item)
    {
      assert w[1..][k] == w[k + 1];
    }
  }

  /**
   * In a closed tree whose entries come from the source, a walk from a key
   * along the kept items' edges ends at a key, or after its last hop at a
   * name no item describes.
   */
  lemma {:induction false} WalkIntoTree(g: Generation, src: seq<SourceItem>, r: Tree, x: string, w: seq<Hop>, y: string)
    requires Closed(src, r, r.Keys) && FromSource(g, src, r, r.Keys)
    requires x in r && TakesLastItems(src, w) && Walk(g, src, x, w) == Some(y)
    ensures y in r || y !in SourceNames(src)
    decreases |w|
  {
    if w != [] {
      TakesLastItemsTail(src, w);
      HopIntoTree(g, src, r, x, w[0]);
      var next := Lower(w[0].edge.package);
      if w[1..] != [] {
        MatchIsSourceName(src, w[1..][0].item, next);
        WalkIntoTree(g, src, r, next, w[1..], y);
      }
    }
  }

  /** At unlimited depth, the described target of an edge the tree keeps is itself a key. */
  lemma UnlimitedEdgeBuilt(g: Generation, src: seq<SourceItem>, name: string, depth: int, k: string, i: nat, e: Edge)
    requires depth < 0 && LastMatch(src, i, k) && k in Build(g, map[], src, name, depth)
    requires e in EdgesOf(g, src[i]) && Lower(e.package) in SourceNames(src)
    ensures Lower(e.package) in Build(g, map[], src, name, depth)
  {
    UnlimitedBuildClosed(g, src, name, depth);
    BuildEntryOf(g, src, name, depth, i, k);
    assert EntryClosed(src, Build(g, map[], src, name, depth), k);
  }

  /**
   * The converse of `BuildOnlyReachable` at unlimited depth: every package
   * reachable from a described root along the edges the builder keeps is a
   * key of the tree, unless the walk ends at a package the source does not
   * describe.
   */
  lemma UnlimitedBuildComplete(g: Generation, src: seq<SourceItem>, name: string, depth: int, w: seq<Hop>, y: string)
    requires depth < 0 && Lower(name) in SourceNames(src)
    requires TakesLastItems(src, w) && Walk(g, src, Lower(name), w) == Some(y)
    ensures y in Build(g, map[], src, name, depth) || y !in SourceNames(src)
  {
    var e: Tree := map[];
    var r := Build(g, e, src, name, depth);
    UnlimitedBuildClosed(g, src, name, depth);
    BuildFromSource(g, e, src, name, depth);
    assert r.Keys - e.Keys == r.Keys;
    WalkIntoTree(g, src, r, Lower(name), w, y);
  }
}

/**
 * Requirement operators, version comparison with an operator, the newer-version
 * filter and the "new versions available" report (`deppy/versions.py`; the
 * identical `compare_loose_versions` and `filter_newer_versions` of
 * `dep_vers/vers_getter.py` are the same functions).
 */
module Versions {
  import opened Wrappers
  import opened Text
  import opened LooseVersion

  /** The keys of `OPERATORS`. */
  datatype Operator = Gt | Lt | Ge | Le | Eq | Ne {
    function Symbol(): string {
      match this
      case Gt => ">"
      case Lt => "<"
      case Ge => ">="
      case Le => "<="
      case Eq => "=="
      case Ne => "!="
    }

    /** The relation `operator.gt`, `operator.lt`, ... applies to a `cmp` result. */
    predicate Holds(c: int) {
      match this
      case Gt => c > 0
      case Lt => c < 0
      case Ge => c >= 0
      case Le => c <= 0
      case Eq => c == 0
      case Ne => c != 0
    }
  }

  /** `OPERATORS`, listed in the order the dictionary literal gives them. */
  const Operators: seq<Operator> := [Gt, Lt, Ge, Le, Eq, Ne]

  lemma OperatorsComplete(op: Operator)
    ensures op in Operators
  {
  }

  /** The `OPERATORS` lookup by symbol; `None` is the `KeyError` case. */
  function OperatorOf(symbol: string): (r: Option<Operator>)
    ensures r.Some? ==> r.value.Symbol() == symbol
    ensures r.None? ==> forall op: Operator :: op.Symbol() != symbol
  {
    if symbol == ">" then Some(Gt)
    else if symbol == "<" then Some(Lt)
    else if symbol == ">=" then Some(Ge)
    else if symbol == "<=" then Some(Le)
    else if symbol == "==" then Some(Eq)
    else if symbol == "!=" then Some(Ne)
    else None
  }

  /** `[op for op in ops if require.startswith(op)]`. */
  function SymbolsPrefixing(ops: seq<Operator>, require: string): (r: seq<string>)
    ensures forall s :: s in r ==> StartsWith(require, s) && exists op :: op in ops && op.Symbol() == s
    ensures forall op :: op in ops && StartsWith(require, op.Symbol()) ==> op.Symbol() in r
  {
    if ops == [] then []
    else
      var rest := SymbolsPrefixing(ops[1..], require);
      assert forall op :: op in ops[1..] ==> op in ops;
      if StartsWith(require, ops[0].Symbol()) then [ops[0].Symbol()] + rest else rest
  }

  /** `max(candidates, key=len)`: the first of the longest candidates. */
  function Longest(candidates: seq<string>): (m: string)
    requires candidates != []
    ensures m in candidates
    ensures forall c :: c in candidates ==> |c| <= |m|
  {
    if |candidates| == 1 then candidates[0]
    else
      var m := Longest(candidates[..|candidates| - 1]);
      var last := candidates[|candidates| - 1];
      assert candidates == candidates[..|candidates| - 1] + [last];
      if |last| > |m| then last else m
  }

  /**
   * `split_require`: the pair (version, operator) where the operator is the
   * longest symbol of `OPERATORS` that prefixes the requirement, or "" when
   * none does, and the version is the rest of the requirement. The two-character
   * symbols are tried first, so the first prefix found is the longest.
   */
  function SplitRequire(require: string): (string, string) {
    var n := if |require| >= 2 && require[1] == '=' && (require[0] == '>' || require[0] == '<' || require[0] == '=' || require[0] == '!') then 2
             else if |require| >= 1 && (require[0] == '>' || require[0] == '<') then 1
             else 0;
    (require[n..], require[..n])
  }

  /**
   * The split puts the requirement back together, the operator part is a key
   * of `OPERATORS` or empty, and no symbol prefixing the requirement is longer.
   */
  lemma SplitRequireParts(require: string)
    ensures SplitRequire(require).1 + SplitRequire(require).0 == require
    ensures SplitRequire(require).1 == "" || OperatorOf(SplitRequire(require).1).Some?
    ensures forall op: Operator :: StartsWith(require, op.Symbol()) ==> |op.Symbol()| <= |SplitRequire(require).1|
  {
    var r := SplitRequire(require);
    assert require == r.1 + r.0;
    if |r.1| == 2 {
      assert r.1 == [require[0], require[1]];
    } else if |r.1| == 1 {
      assert r.1 == [require[0]];
    }
    forall op: Operator | StartsWith(require, op.Symbol())
      ensures |op.Symbol()| <= |r.1|
    {
      var symbol := op.Symbol();
      assert require[..|symbol|] == symbol;
      assert require[0] == symbol[0];
      if |symbol| == 2 {
        assert require[1] == symbol[1];
      }
    }
  }

  lemma SplitRequireIsLongestCandidate(require: string)
    ensures SplitRequire(require).1 == Longest(SymbolsPrefixing(Operators, require) + [""])
  {
    SplitRequireParts(require);
    var r := SplitRequire(require);
    var candidates := SymbolsPrefixing(Operators, require) + [""];
    var m := Longest(candidates);
    assert StartsWith(require, m);
    if r.1 != "" {
      var op := OperatorOf(r.1).value;
      OperatorsComplete(op);
      assert require[..|r.1|] == r.1;
      assert r.1 in candidates;
    }
    if m != "" {
      assert m in SymbolsPrefixing(Operators, require);
      var op :| op in Operators && op.Symbol() == m;
    }
    assert |m| == |r.1|;
    assert m == require[..|m|];
    assert r.1 == require[..|r.1|];
  }

  /** The operator part is empty exactly when no symbol of `OPERATORS` prefixes the requirement. */
  lemma SplitRequireNoOperator(require: string)
    ensures SplitRequire(require).1 == "" <==> forall op: Operator :: !StartsWith(require, op.Symbol())
  {
    var r := SplitRequire(require);
    if r.1 != "" {
      var op := OperatorOf(r.1).value;
      assert StartsWith(require, op.Symbol()) by {
        assert require == r.1 + r.0;
        assert require[..|r.1|] == r.1;
      }
    }
  }

  /**
   * An operator followed by a version that does not start with '=' splits
   * back into that operator and version: ">=7.5" is never read as ">" and "=7.5".
   */
  lemma SplitRequireOfOperator(op: Operator, version: string)
    requires version == [] || version[0] != '='
    ensures SplitRequire(op.Symbol() + version) == (version, op.Symbol())
  {
    var require := op.Symbol() + version;
    var r := SplitRequire(require);
    assert require[..|op.Symbol()|] == op.Symbol();
    var found := OperatorOf(r.1).value;
    assert |found.Symbol()| == 2 ==> found.Symbol()[1] == '=';
    assert require == r.1 + r.0;
    assert require[..|r.1|] == r.1;
    assert require[|op.Symbol()|..] == version;
    assert |r.1| == |op.Symbol()|;
    assert r.1 == require[..|r.1|];
    assert r.0 == require[|r.1|..];
  }

  /** A requirement without any operator prefix is all version. */
  lemma SplitRequireBareVersion(version: string)
    requires forall op: Operator :: !StartsWith(version, op.Symbol())
    ensures SplitRequire(version) == (version, "")
  {
    SplitRequireNoOperator(version);
  }

  /** What `compare` returns: a `cmp` value, a boolean, or the `KeyError` of an unknown operator. */
  datatype Comparison = Order(sign: int) | Relation(holds: bool) | UnknownOperator

  /**
   * `compare(version1, version2, oper)`: with no operator (None or "") the
   * three-way `cmp` of the two loose versions, otherwise the operator applied
   * to them.
   */
  function CompareWith(version1: string, version2: string, oper: Option<string>): (r: Comparison)
    ensures r.Order? <==> oper.None? || oper.value == ""
    ensures r.UnknownOperator? <==> oper.Some? && oper.value != "" && OperatorOf(oper.value).None?
    ensures r.Order? ==> -1 <= r.sign <= 1 && (r.sign == 0 <==> Parse(version1) == Parse(version2))
  {
    CompareZeroIff(version1, version2);
    if oper.None? || oper.value == "" then Order(Compare(version1, version2))
    else
      match OperatorOf(oper.value)
      case None => UnknownOperator
      case Some(op) => Relation(op.Holds(Compare(version1, version2)))
  }

  /** Each operator agrees with the three-way result: "<" holds iff it is -1, ">=" iff it is not -1, and so on. */
  lemma CompareWithAgreesWithOrder(version1: string, version2: string, op: Operator)
    ensures CompareWith(version1, version2, Some(op.Symbol())) == Relation(
      var c := CompareWith(version1, version2, None).sign;
      match op
      case Gt => c == 1
      case Lt => c == -1
      case Ge => c != -1
      case Le => c != 1
      case Eq => c == 0
      case Ne => c != 0)
  {
    assert OperatorOf(op.Symbol()) == Some(op);
  }

  /** ">=", "<=" and "!=" are the negations of "<", ">" and "==". */
  lemma CompareWithComplements(version1: string, version2: string)
    ensures CompareWith(version1, version2, Some(">=")).holds == !CompareWith(version1, version2, Some("<")).holds
    ensures CompareWith(version1, version2, Some("<=")).holds == !CompareWith(version1, version2, Some(">")).holds
    ensures CompareWith(version1, version2, Some("!=")).holds == !CompareWith(version1, version2, Some("==")).holds
  {
  }

  /** Swapping the versions swaps ">" with "<" and ">=" with "<=". */
  lemma CompareWithConverse(version1: string, version2: string)
    ensures CompareWith(version1, version2, Some(">")) == CompareWith(version2, version1, Some("<"))
    ensures CompareWith(version1, version2, Some(">=")) == CompareWith(version2, version1, Some("<="))
    ensures CompareWith(version1, version2, Some("==")) == CompareWith(version2, version1, Some("=="))
  {
    CompareAntisymmetric(version1, version2);
  }

  /** A version is "==", ">=" and "<=" itself, and neither ">", "<" nor "!=" itself. */
  lemma CompareWithSelf(version: string, op: Operator)
    ensures CompareWith(version, version, Some(op.Symbol())) == Relation(op in [Ge, Le, Eq])
  {
    CompareReflexive(version);
    assert OperatorOf(op.Symbol()) == Some(op);
  }

  /** `version > current` for loose versions, the test `_filter_newer` applies. */
  predicate IsNewer(version: string, current: string) {
    Compare(version, current) == 1
  }

  lemma IsNewerIsGreaterThan(version: string, current: string)
    ensures IsNewer(version, current) <==> CompareWith(version, current, Some(">")) == Relation(true)
  {
  }

  /** The comprehension of `_filter_newer`: the versions newer than `current`, in their order. */
  function KeepNewer(versions: seq<string>, current: string): (r: seq<string>)
    ensures |r| <= |versions|
  {
    if versions == [] then []
    else
      var init, last := versions[..|versions| - 1], versions[|versions| - 1];
      KeepNewer(init, current) + (if IsNewer(last, current) then [last] else [])
  }

  lemma {:induction false} KeepNewerMembership(versions: seq<string>, current: string)
    ensures forall v :: v in KeepNewer(versions, current) <==> v in versions && IsNewer(v, current)
    decreases |versions|
  {
    if versions != [] {
      var init, last := versions[..|versions| - 1], versions[|versions| - 1];
      assert versions == init + [last];
      KeepNewerMembership(init, current);
    }
  }

  /** `_filter_newer` / `filter_newer_versions`: an empty current version keeps everything. */
  function FilterNewer(versions: seq<string>, current: string): (r: seq<string>)
    ensures current == "" ==> r == versions
    ensures |r| <= |versions|
  {
    if current == "" then versions else KeepNewer(versions, current)
  }

  /** Otherwise exactly the versions newer than the current one remain. */
  lemma FilterNewerMembership(versions: seq<string>, current: string)
    requires current != ""
    ensures forall v :: v in FilterNewer(versions, current) <==> v in versions && IsNewer(v, current)
  {
    KeepNewerMembership(versions, current);
  }

  /** The filter keeps the order of the list: it distributes over concatenation. */
  lemma {:induction false} KeepNewerAppend(a: seq<string>, b: seq<string>, current: string)
    ensures KeepNewer(a + b, current) == KeepNewer(a, current) + KeepNewer(b, current)
    decreases |b|
  {
    if b == [] {
      assert a + b == a;
    } else {
      var init, last := b[..|b| - 1], b[|b| - 1];
      assert a + b == (a + init) + [last];
      assert (a + b)[..|a + b| - 1] == a + init;
      KeepNewerAppend(a, init, current);
    }
  }

  /** Filtering twice against the same current version filters once. */
  lemma {:induction false} KeepNewerIdempotent(versions: seq<string>, current: string)
    ensures KeepNewer(KeepNewer(versions, current), current) == KeepNewer(versions, current)
    decreases |versions|
  {
    if versions != [] {
      var init, last := versions[..|versions| - 1], versions[|versions| - 1];
      KeepNewerIdempotent(init, current);
      var tail := if IsNewer(last, current) then [last] else [];
      KeepNewerAppend(KeepNewer(init, current), tail, current);
      if tail != [] {
        assert KeepNewer(tail, current) == KeepNewer([], current) + [last] by {
          assert tail[..0] == [];
        }
      }
    }
  }

  lemma FilterNewerIdempotent(versions: seq<string>, current: string)
    ensures FilterNewer(FilterNewer(versions, current), current) == FilterNewer(versions, current)
  {
    if current != "" {
      KeepNewerIdempotent(versions, current);
    }
  }

  /** A newer current version leaves fewer candidates: whatever is newer than it is newer than the older one. */
  lemma FilterNewerMonotone(versions: seq<string>, older: string, newer: string)
    requires older != "" && newer != "" && IsNewer(newer, older)
    ensures forall v :: v in FilterNewer(versions, newer) ==> v in FilterNewer(versions, older)
  {
    FilterNewerMembership(versions, newer);
    FilterNewerMembership(versions, older);
    forall v | v in FilterNewer(versions, newer)
      ensures v in FilterNewer(versions, older)
    {
      CompareTransitive(v, newer, older);
    }
  }

  /** The current version itself never survives the filter. */
  lemma FilterNewerExcludesCurrent(versions: seq<string>, current: string)
    requires current != ""
    ensures current !in FilterNewer(versions, current)
  {
    FilterNewerMembership(versions, current);
    CompareReflexive(current);
  }

  lemma ParseSingleDigit(d: string)
    requires |d| == 1 && IsDigit(d[0])
    ensures Parse(d) == [Number(d[0] as int - '0' as int)]
  {
    assert RunEnd(d, 0, Digits) == 1;
  }

  /** The filter keeps the list's own order: ["3", "2", "1"] against "1" gives ["3", "2"]. */
  lemma FilterNewerExample()
    ensures FilterNewer(["1", "2", "3"], "1") == ["2", "3"]
    ensures FilterNewer(["3", "2", "1"], "1") == ["3", "2"]
  {
    ParseSingleDigit("1");
    ParseSingleDigit("2");
    ParseSingleDigit("3");
    assert ["1", "2", "3"][..2] == ["1", "2"] && ["1", "2"][..1] == ["1"] && ["1"][..0] == [];
    assert ["3", "2", "1"][..2] == ["3", "2"] && ["3", "2"][..1] == ["3"] && ["3"][..0] == [];
  }

  /** One requirement string of one package: what a record of `get_new_available` is about. */
  datatype Requirement = Requirement(package: string, require: string)

  /** One entry of the list `get_new_available` returns. */
  datatype Record = Record(package: string, require: string, newVersions: seq<string>)

  /** The requirements of one package, in the order of its requirement list. */
  function PackageRequirements(package: string, reqs: seq<string>): seq<Requirement> {
    if reqs == [] then []
    else PackageRequirements(package, reqs[..|reqs| - 1]) + [Requirement(package, reqs[|reqs| - 1])]
  }

  /** One requirement per requirement string, in list order. */
  lemma {:induction false} PackageRequirementsIndex(package: string, reqs: seq<string>)
    ensures |PackageRequirements(package, reqs)| == |reqs|
    ensures forall i :: 0 <= i < |reqs| ==> PackageRequirements(package, reqs)[i] == Requirement(package, reqs[i])
    decreases |reqs|
  {
    if reqs != [] {
      var init := reqs[..|reqs| - 1];
      PackageRequirementsIndex(package, init);
      assert forall i :: 0 <= i < |init| ==> init[i] == reqs[i];
    }
  }

  /**
   * The requirements visited for the packages of `keys`, in that order; a
   * package without available versions adds nothing (the report visits only
   * keys of `mine`, so the second test is there for totality).
   */
  function RequirementsFor(keys: seq<string>, mine: map<string, seq<string>>, all: map<string, seq<string>>): seq<Requirement> {
    if keys == [] then []
    else
      var init, last := keys[..|keys| - 1], keys[|keys| - 1];
      RequirementsFor(init, mine, all) + (if last in all && last in mine then PackageRequirements(last, mine[last]) else [])
  }

  /** The versions `all` lists for a package; the report asks only for packages it lists. */
  function AvailableOf(all: map<string, seq<string>>, package: string): seq<string> {
    if package in all then all[package] else []
  }

  /** The record for one requirement: the package's available versions newer than the requirement with its operator stripped. */
  function RecordOf(q: Requirement, all: map<string, seq<string>>): Record {
    Record(q.package, q.require, FilterNewer(AvailableOf(all, q.package), SplitRequire(q.require).0))
  }

  /**
   * A record lists the available versions newer than its requirement's
   * version, or all of them when the requirement names no version.
   */
  lemma RecordOfNewVersions(q: Requirement, all: map<string, seq<string>>)
    requires q.package in all
    ensures RecordOf(q, all).package == q.package && RecordOf(q, all).require == q.require
    ensures SplitRequire(q.require).0 == "" ==> RecordOf(q, all).newVersions == all[q.package]
    ensures SplitRequire(q.require).0 != "" ==>
              forall v :: v in RecordOf(q, all).newVersions <==> v in all[q.package] && IsNewer(v, SplitRequire(q.require).0)
  {
    if SplitRequire(q.require).0 != "" {
      FilterNewerMembership(all[q.package], SplitRequire(q.require).0);
    }
  }

  /** The records for the requirements `qs`, one each, in order. */
  function RecordsOf(qs: seq<Requirement>, all: map<string, seq<string>>): seq<Record> {
    if qs == [] then []
    else RecordsOf(qs[..|qs| - 1], all) + [RecordOf(qs[|qs| - 1], all)]
  }

  lemma {:induction false} RecordsOfIndex(qs: seq<Requirement>, all: map<string, seq<string>>, i: int)
    requires 0 <= i < |qs|
    ensures |RecordsOf(qs, all)| == |qs|
    ensures RecordsOf(qs, all)[i] == RecordOf(qs[i], all)
    decreases |qs|
  {
    var init := qs[..|qs| - 1];
    if i < |init| {
      RecordsOfIndex(init, all, i);
    } else if init != [] {
      RecordsOfIndex(init, all, 0);
    }
  }

  /**
   * A requirement is visited exactly when its package is one of the keys, has
   * available versions, and lists the requirement string.
   */
  lemma {:induction false} RequirementsForMembership(keys: seq<string>, mine: map<string, seq<string>>, all: map<string, seq<string>>, q: Requirement)
    requires forall k :: k in keys ==> k in mine
    ensures q in RequirementsFor(keys, mine, all) <==> q.package in keys && q.package in all && q.require in mine[q.package]
    decreases |keys|
  {
    if keys != [] {
      var init, last := keys[..|keys| - 1], keys[|keys| - 1];
      assert forall k :: k in init ==> k in keys;
      assert keys == init + [last];
      RequirementsForMembership(init, mine, all, q);
      if last in all {
        var block := PackageRequirements(last, mine[last]);
        PackageRequirementsIndex(last, mine[last]);
        if q.package == last && q.require in mine[last] {
          var i :| 0 <= i < |mine[last]| && mine[last][i] == q.require;
          assert block[i] == q;
        }
      }
    }
  }

  /** The requirement strings of the requirements of `package`, in order. */
  function RequiresOf(qs: seq<Requirement>, package: string): seq<string> {
    if qs == [] then []
    else
      var init, last := qs[..|qs| - 1], qs[|qs| - 1];
      RequiresOf(init, package) + (if last.package == package then [last.require] else [])
  }

  lemma {:induction false} RequiresOfAppend(a: seq<Requirement>, b: seq<Requirement>, package: string)
    ensures RequiresOf(a + b, package) == RequiresOf(a, package) + RequiresOf(b, package)
    decreases |b|
  {
    if b == [] {
      assert a + b == a;
    } else {
      var init := b[..|b| - 1];
      assert a + b == (a + init) + [b[|b| - 1]];
      assert (a + b)[..|a + b| - 1] == a + init;
      RequiresOfAppend(a, init, package);
    }
  }

  lemma {:induction false} RequiresOfPackageRequirements(package: string, other: string, reqs: seq<string>)
    ensures RequiresOf(PackageRequirements(package, reqs), other) == if package == other then reqs else []
    decreases |reqs|
  {
    if reqs != [] {
      var init := reqs[..|reqs| - 1];
      var qs := PackageRequirements(package, reqs);
      assert qs[..|qs| - 1] == PackageRequirements(package, init);
      RequiresOfPackageRequirements(package, other, init);
      assert reqs == init + [reqs[|reqs| - 1]];
    }
  }

  /** Keys visited once each. */
  predicate NoDuplicates<T(==)>(s: seq<T>) {
    forall i, j :: 0 <= i < j < |s| ==> s[i] != s[j]
  }

  /** The requirements of one package come in the package's own order, or not at all when it has no available versions. */
  lemma {:induction false} RequirementsPerPackage(keys: seq<string>, mine: map<string, seq<string>>, all: map<string, seq<string>>, package: string)
    requires forall k :: k in keys ==> k in mine
    requires NoDuplicates(keys)
    ensures RequiresOf(RequirementsFor(keys, mine, all), package) ==
              if package in keys && package in all then mine[package] else []
    decreases |keys|
  {
    if keys != [] {
      var init, last := keys[..|keys| - 1], keys[|keys| - 1];
      assert keys == init + [last];
      assert forall k :: k in init ==> k in keys;
      assert NoDuplicates(init) by {
        forall i, j | 0 <= i < j < |init|
          ensures init[i] != init[j]
        {
          assert init[i] == keys[i] && init[j] == keys[j];
        }
      }
      RequirementsPerPackage(init, mine, all, package);
      var done := RequirementsFor(init, mine, all);
      var block := if last in all && last in mine then PackageRequirements(last, mine[last]) else [];
      assert RequirementsFor(keys, mine, all) == done + block;
      RequiresOfAppend(done, block, package);
      if last in all {
        RequiresOfPackageRequirements(last, package, mine[last]);
      }
      assert last !in init by {
        forall i | 0 <= i < |init|
          ensures init[i] != last
        {
          assert init[i] == keys[i];
        }
      }
    }
  }

  /** Strictly increasing in Python 2 string order, as `sorted` lists distinct keys. */
  predicate StrictlySorted(s: seq<string>) {
    forall i, j :: 0 <= i < j < |s| ==> Less(s[i], s[j])
  }

  /** `s` is `sorted(keys)`. */
  ghost predicate SortedEnumeration(s: seq<string>, keys: set<string>) {
    StrictlySorted(s) && forall k :: k in s <==> k in keys
  }

  lemma StrictlySortedNoDuplicates(s: seq<string>)
    requires StrictlySorted(s)
    ensures NoDuplicates(s)
  {
    forall i, j | 0 <= i < j < |s|
      ensures s[i] != s[j]
    {
      LessIrreflexive(s[i]);
    }
  }

  /** There is only one sorted enumeration of a set of keys. */
  lemma {:induction false} SortedEnumerationUnique(a: seq<string>, b: seq<string>)
    requires StrictlySorted(a) && StrictlySorted(b)
    requires forall k :: k in a <==> k in b
    ensures a == b
    decreases |a|
  {
    if a != [] {
      assert a[0] in b;
    }
    if b != [] {
      assert b[0] in a;
    }
    if a != [] && b != [] {
      assert a[0] in a && b[0] in b;
      if a[0] != b[0] {
        var i :| 0 <= i < |a| && a[i] == b[0];
        var j :| 0 <= j < |b| && b[j] == a[0];
        LessAsymmetric(a[0], b[0]);
        assert false;
      }
      StrictlySortedNoDuplicates(a);
      StrictlySortedNoDuplicates(b);
      forall k
        ensures k in a[1..] <==> k in b[1..]
      {
        if k in a[1..] {
          var i :| 1 <= i < |a| && a[i] == k;
          assert k in a;
          var j :| 0 <= j < |b| && b[j] == k;
          assert j != 0;
          assert b[1..][j - 1] == k;
        }
        if k in b[1..] {
          var j :| 1 <= j < |b| && b[j] == k;
          assert k in b;
          var i :| 0 <= i < |a| && a[i] == k;
          assert i != 0;
          assert a[1..][i - 1] == k;
        }
      }
      SortedEnumerationUnique(a[1..], b[1..]);
      assert a == [a[0]] + a[1..] && b == [b[0]] + b[1..];
    }
  }

  /** Inserts a new key into a strictly sorted list. */
  function Insert(s: seq<string>, k: string): (r: seq<string>)
    requires StrictlySorted(s) && k !in s
    ensures StrictlySorted(r)
    ensures forall x :: x in r <==> x in s || x == k
  {
    if s == [] then [k]
    else if Less(k, s[0]) then
      assert forall j :: 0 < j < |s| ==> Less(k, s[j]) by {
        forall j | 0 < j < |s| ensures Less(k, s[j]) {
          LessTransitive(k, s[0], s[j]);
        }
      }
      [k] + s
    else
      var rest := Insert(s[1..], k);
      LessTotal(k, s[0]);
      assert forall x :: x in rest ==> Less(s[0], x);
      [s[0]] + rest
  }

  /** `sorted(keys)`. */
  method SortedKeys(keys: set<string>) returns (s: seq<string>)
    ensures SortedEnumeration(s, keys)
  {
    s := [];
    var rest := keys;
    while rest != {}
      invariant rest <= keys
      invariant StrictlySorted(s)
      invariant forall k :: k in s <==> k in keys && k !in rest
      decreases |rest|
    {
      var k :| k in rest;
      s := Insert(s, k);
      rest := rest - {k};
    }
  }

  /** Records are attached requirement by requirement: the map distributes over concatenation. */
  lemma {:induction false} RecordsOfAppend(a: seq<Requirement>, b: seq<Requirement>, all: map<string, seq<string>>)
    ensures RecordsOf(a + b, all) == RecordsOf(a, all) + RecordsOf(b, all)
    decreases |b|
  {
    if b == [] {
      assert a + b == a;
    } else {
      var init := b[..|b| - 1];
      assert a + b == (a + init) + [b[|b| - 1]];
      assert (a + b)[..|a + b| - 1] == a + init;
      RecordsOfAppend(a, init, all);
    }
  }

  /** The records the inner loop appends for one package, one per requirement string. */
  function PackageRecords(package: string, reqs: seq<string>, all: map<string, seq<string>>): seq<Record> {
    if reqs == [] then []
    else PackageRecords(package, reqs[..|reqs| - 1], all) + [RecordOf(Requirement(package, reqs[|reqs| - 1]), all)]
  }

  /** One more requirement string appends its record. */
  lemma PackageRecordsStep(package: string, reqs: seq<string>, j: nat, all: map<string, seq<string>>)
    requires j < |reqs|
    ensures PackageRecords(package, reqs[..j + 1], all) == PackageRecords(package, reqs[..j], all) + [RecordOf(Requirement(package, reqs[j]), all)]
  {
    assert reqs[..j + 1][..j] == reqs[..j];
  }

  lemma {:induction false} PackageRecordsOfRequirements(package: string, reqs: seq<string>, all: map<string, seq<string>>)
    ensures PackageRecords(package, reqs, all) == RecordsOf(PackageRequirements(package, reqs), all)
    decreases |reqs|
  {
    if reqs != [] {
      var init := reqs[..|reqs| - 1];
      var q := Requirement(package, reqs[|reqs| - 1]);
      PackageRecordsOfRequirements(package, init, all);
      var done := PackageRequirements(package, init);
      assert (done + [q])[..|done|] == done;
    }
  }

  lemma RequirementsForStep(keys: seq<string>, i: nat, mine: map<string, seq<string>>, all: map<string, seq<string>>)
    requires i < |keys|
    ensures RecordsOf(RequirementsFor(keys[..i + 1], mine, all), all) ==
              RecordsOf(RequirementsFor(keys[..i], mine, all), all) +
              if keys[i] in all && keys[i] in mine then RecordsOf(PackageRequirements(keys[i], mine[keys[i]]), all) else []
  {
    var package := keys[i];
    var done := RequirementsFor(keys[..i], mine, all);
    var block := if package in all && package in mine then PackageRequirements(package, mine[package]) else [];
    assert keys[..i + 1][..i] == keys[..i];
    assert RequirementsFor(keys[..i + 1], mine, all) == done + block;
    RecordsOfAppend(done, block, all);
  }

  /** The inner loop of `get_new_available`: appends one record per requirement string of `package`. */
  method AppendPackageRecords(prefix: seq<Record>, package: string, reqs: seq<string>, all: map<string, seq<string>>)
    returns (result: seq<Record>)
    ensures result == prefix + RecordsOf(PackageRequirements(package, reqs), all)
  {
    result := prefix;
    for j := 0 to |reqs|
      invariant result == prefix + PackageRecords(package, reqs[..j], all)
    {
      PackageRecordsStep(package, reqs, j, all);
      result := result + [RecordOf(Requirement(package, reqs[j]), all)];
    }
    assert reqs[..|reqs|] == reqs;
    PackageRecordsOfRequirements(package, reqs, all);
  }

  /**
   * `get_new_available`: for each package of `mine`, in sorted order, that
   * `all` lists, one record per requirement string, in list order.
   */
  method GetNewAvailable(mine: map<string, seq<string>>, all: map<string, seq<string>>) returns (result: seq<Record>)
    ensures forall keys :: SortedEnumeration(keys, mine.Keys) ==> result == RecordsOf(RequirementsFor(keys, mine, all), all)
  {
    var keys := SortedKeys(mine.Keys);
    result := [];
    for i := 0 to |keys|
      invariant result == RecordsOf(RequirementsFor(keys[..i], mine, all), all)
    {
      var package := keys[i];
      RequirementsForStep(keys, i, mine, all);
      if package in all {
        result := AppendPackageRecords(result, package, mine[package], all);
      }
    }
    assert keys[..|keys|] == keys;
    forall other | SortedEnumeration(other, mine.Keys)
      ensures result == RecordsOf(RequirementsFor(other, mine, all), all)
    {
      SortedEnumerationUnique(keys, other);
    }
  }
}

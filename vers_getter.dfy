/**
 * The version helpers of the older generation (`dep_vers/vers_getter.py`):
 * its own requirement split, the "new versions available" report over the
 * dictionary's own key order, and the extraction of version lists from a
 * PyPI document and from the text `pip install <name>==-56468` prints. Its
 * `compare_loose_versions` and `filter_newer_versions` are the same code as
 * `Versions.CompareWith` and `Versions.FilterNewer`.
 */
module VersGetter {
  import opened Wrappers
  import opened Text
  import opened Versions

  /** `UNKNOWN_LICENSE_STR`. */
  const UnknownLicense: string := "Unknown"

  /** `PIP_INSTALL_PREFIX`, `PIP_INSTALL_SUFFIX` and `PIP_VERSIONS_SEPARATOR`. */
  const PipPrefix: string := " (from versions: "
  const PipSuffix: string := ")"
  const PipSeparator: string := ", "

  /**
   * `split_required_versions(req)`: the symbols of `OPS`, taken in `ops` order
   * (the dictionary's iteration order), that prefix the requirement; with none
   * the pair `(req, '')`, otherwise the first longest one and the rest.
   */
  function SplitRequiredVersions(req: string, ops: seq<Operator>): (string, string) {
    var prefixes := SymbolsPrefixing(ops, req);
    if prefixes == [] then (req, "")
    else
      var op := Longest(prefixes);
      (req[|op|..], op)
  }

  /**
   * Whatever order the six keys of `OPS` come in, the split is deppy's
   * `split_require`: the longest operator prefix and the rest, or no operator.
   */
  lemma SplitRequiredVersionsIsSplitRequire(req: string, ops: seq<Operator>)
    requires forall op: Operator :: op in ops
    ensures SplitRequiredVersions(req, ops) == SplitRequire(req)
  {
    var r := SplitRequire(req);
    SplitRequireParts(req);
    var prefixes := SymbolsPrefixing(ops, req);
    if r.1 != "" {
      var op := OperatorOf(r.1).value;
      assert req[..|r.1|] == r.1;
      assert op.Symbol() in prefixes;
    }
    if prefixes == [] {
      assert r.0 == req;
    } else {
      var m := Longest(prefixes);
      var found :| found in ops && found.Symbol() == m;
      assert |m| <= |r.1|;
      assert m == req[..|m|];
      assert r.1 == req[..|r.1|];
      assert r.0 == req[|r.1|..];
    }
  }

  /** The iteration order of `OPS` never changes the split. */
  lemma SplitRequiredVersionsOrderFree(req: string, ops1: seq<Operator>, ops2: seq<Operator>)
    requires forall op: Operator :: op in ops1
    requires forall op: Operator :: op in ops2
    ensures SplitRequiredVersions(req, ops1) == SplitRequiredVersions(req, ops2)
  {
    SplitRequiredVersionsIsSplitRequire(req, ops1);
    SplitRequiredVersionsIsSplitRequire(req, ops2);
  }

  /** One more key adds that key's requirements at the end. */
  lemma RequirementsForSnoc(keys: seq<string>, k: string, mine: map<string, seq<string>>, all: map<string, seq<string>>)
    ensures RequirementsFor(keys + [k], mine, all) ==
            RequirementsFor(keys, mine, all) + if k in all && k in mine then PackageRequirements(k, mine[k]) else []
  {
    assert (keys + [k])[..|keys|] == keys;
  }

  /** The visited requirements of two key lists follow each other. */
  lemma {:induction false} RequirementsForAppend(a: seq<string>, b: seq<string>, mine: map<string, seq<string>>, all: map<string, seq<string>>)
    ensures RequirementsFor(a + b, mine, all) == RequirementsFor(a, mine, all) + RequirementsFor(b, mine, all)
    decreases |b|
  {
    if b == [] {
      assert a + b == a;
    } else {
      var init, last := b[..|b| - 1], b[|b| - 1];
      RequirementsForAppend(a, init, mine, all);
      RequirementsForAppendStep(a, init, last, mine, all);
      assert b == init + [last];
    }
  }

  /** The inductive step of `RequirementsForAppend`: one more key at the end of the second list. */
  lemma RequirementsForAppendStep(a: seq<string>, init: seq<string>, last: string, mine: map<string, seq<string>>, all: map<string, seq<string>>)
    requires RequirementsFor(a + init, mine, all) == RequirementsFor(a, mine, all) + RequirementsFor(init, mine, all)
    ensures RequirementsFor(a + (init + [last]), mine, all) == RequirementsFor(a, mine, all) + RequirementsFor(init + [last], mine, all)
  {
    var x, y := RequirementsFor(a, mine, all), RequirementsFor(init, mine, all);
    var step := if last in all && last in mine then PackageRequirements(last, mine[last]) else [];
    AppendAssociative(a, init, [last]);
    RequirementsForSnoc(a + init, last, mine, all);
    RequirementsForSnoc(init, last, mine, all);
    AppendAssociative(x, y, step);
  }

  lemma AppendAssociative<T>(x: seq<T>, y: seq<T>, z: seq<T>)
    ensures (x + y) + z == x + (y + z)
  {
  }

  /** The records of two key lists follow each other. */
  lemma KeyRecordsAppend(a: seq<string>, b: seq<string>, mine: map<string, seq<string>>, all: map<string, seq<string>>)
    ensures RecordsOf(RequirementsFor(a + b, mine, all), all) ==
              RecordsOf(RequirementsFor(a, mine, all), all) + RecordsOf(RequirementsFor(b, mine, all), all)
  {
    RequirementsForAppend(a, b, mine, all);
    RecordsOfAppend(RequirementsFor(a, mine, all), RequirementsFor(b, mine, all), all);
  }

  /** The records of two key lists, counted without order, add up. */
  lemma KeyRecordsCountAppend(a: seq<string>, b: seq<string>, mine: map<string, seq<string>>, all: map<string, seq<string>>)
    ensures multiset(RecordsOf(RequirementsFor(a + b, mine, all), all)) ==
              multiset(RecordsOf(RequirementsFor(a, mine, all), all)) + multiset(RecordsOf(RequirementsFor(b, mine, all), all))
  {
    KeyRecordsAppend(a, b, mine, all);
  }

  /** A key inserted anywhere adds its records, counted without order. */
  lemma KeyRecordsCountInsert(pre: seq<string>, x: string, post: seq<string>, mine: map<string, seq<string>>, all: map<string, seq<string>>)
    ensures multiset(RecordsOf(RequirementsFor(pre + [x] + post, mine, all), all)) ==
              multiset(RecordsOf(RequirementsFor(pre + post, mine, all), all)) + multiset(RecordsOf(RequirementsFor([x], mine, all), all))
  {
    KeyRecordsCountAppend(pre + [x], post, mine, all);
    KeyRecordsCountAppend(pre, [x], mine, all);
    KeyRecordsCountAppend(pre, post, mine, all);
  }

  /** Visiting the same keys in another order gives the same records in another order. */
  lemma {:induction false} KeyRecordsPermutation(k1: seq<string>, k2: seq<string>, mine: map<string, seq<string>>, all: map<string, seq<string>>)
    requires multiset(k1) == multiset(k2)
    ensures multiset(RecordsOf(RequirementsFor(k1, mine, all), all)) == multiset(RecordsOf(RequirementsFor(k2, mine, all), all))
    decreases |k1|
  {
    if k1 == [] {
      assert |k2| == |multiset(k2)| == 0;
    } else {
      var init, x := k1[..|k1| - 1], k1[|k1| - 1];
      assert k1 == init + [x];
      assert x in multiset(k2);
      var i :| 0 <= i < |k2| && k2[i] == x;
      var pre, post := k2[..i], k2[i + 1..];
      RemoveAt(k2, i);
      MultisetCancel(multiset(init), multiset(pre + post), x);
      KeyRecordsPermutation(init, pre + post, mine, all);
      KeyRecordsCountAppend(init, [x], mine, all);
      KeyRecordsCountInsert(pre, x, post, mine, all);
    }
  }

  /** One occurrence more on both sides can be taken off again. */
  lemma MultisetCancel(a: multiset<string>, b: multiset<string>, x: string)
    requires a + multiset{x} == b + multiset{x}
    ensures a == b
  {
    assert forall y :: a[y] == (a + multiset{x})[y] - multiset{x}[y];
    assert forall y :: b[y] == (b + multiset{x})[y] - multiset{x}[y];
  }

  /** Taking out the element at `i` takes one occurrence out of the multiset. */
  lemma RemoveAt(s: seq<string>, i: nat)
    requires i < |s|
    ensures s == s[..i] + [s[i]] + s[i + 1..]
    ensures multiset(s) == multiset(s[..i] + s[i + 1..]) + multiset{s[i]}
  {
    assert s == s[..i] + [s[i]] + s[i + 1..];
    assert multiset(s) == multiset(s[..i]) + multiset{s[i]} + multiset(s[i + 1..]);
  }

  /** A list without duplicates holds each of its elements once. */
  lemma {:induction false} NoDuplicatesCounts(s: seq<string>)
    requires NoDuplicates(s)
    ensures forall x :: multiset(s)[x] == if x in s then 1 else 0
    decreases |s|
  {
    if s != [] {
      var init := s[..|s| - 1];
      assert s == init + [s[|s| - 1]];
      assert NoDuplicates(init);
      NoDuplicatesCounts(init);
    }
  }

  /** The sorted keys are the keys, once each. */
  lemma SortedEnumerationCounts(keys: seq<string>, keySet: set<string>)
    requires SortedEnumeration(keys, keySet)
    ensures multiset(keys) == multiset(keySet)
  {
    StrictlySortedNoDuplicates(keys);
    NoDuplicatesCounts(keys);
    assert forall x :: multiset(keys)[x] == multiset(keySet)[x];
  }

  /**
   * The report over the dictionary's order and deppy's report over the sorted
   * keys hold the same records, only in another order.
   */
  lemma NewVersionsPermutation(order: seq<string>, keys: seq<string>, mine: map<string, seq<string>>, all: map<string, seq<string>>)
    requires multiset(order) == multiset(mine.Keys)
    requires SortedEnumeration(keys, mine.Keys)
    ensures multiset(RecordsOf(RequirementsFor(order, mine, all), all)) == multiset(RecordsOf(RequirementsFor(keys, mine, all), all))
  {
    SortedEnumerationCounts(keys, mine.Keys);
    KeyRecordsPermutation(order, keys, mine, all);
  }

  /** The inner loop of `get_new_versions_available` for one package that `all` lists. */
  method AppendVersionRecords(prefix: seq<Record>, package: string, reqs: seq<string>, all: map<string, seq<string>>, ops: seq<Operator>)
    returns (result: seq<Record>)
    requires package in all
    requires forall op: Operator :: op in ops
    ensures result == prefix + RecordsOf(PackageRequirements(package, reqs), all)
  {
    result := prefix;
    for j := 0 to |reqs|
      invariant result == prefix + PackageRecords(package, reqs[..j], all)
    {
      var split := SplitRequiredVersions(reqs[j], ops);
      SplitRequiredVersionsIsSplitRequire(reqs[j], ops);
      var record := Record(package, reqs[j], FilterNewer(all[package], split.0));
      assert record == RecordOf(Requirement(package, reqs[j]), all);
      PackageRecordsStep(package, reqs, j, all);
      AppendAssociative(prefix, PackageRecords(package, reqs[..j], all), [record]);
      result := result + [record];
    }
    assert reqs[..|reqs|] == reqs;
    PackageRecordsOfRequirements(package, reqs, all);
  }

  /**
   * `get_new_versions_available(my_vers, all_vers)`: the packages of `mine` in
   * `order` (the dictionary's iteration order, each key once) and, for those
   * `all` lists, one record per requirement string. The same records as
   * deppy's sorted report (`NewVersionsPermutation`).
   */
  method GetNewVersionsAvailable(mine: map<string, seq<string>>, all: map<string, seq<string>>, order: seq<string>, ops: seq<Operator>)
    returns (result: seq<Record>)
    requires multiset(order) == multiset(mine.Keys)
    requires forall op: Operator :: op in ops
    ensures result == RecordsOf(RequirementsFor(order, mine, all), all)
  {
    result := [];
    for i := 0 to |order|
      invariant result == RecordsOf(RequirementsFor(order[..i], mine, all), all)
    {
      var package := order[i];
      assert package in multiset(order);
      RequirementsForStep(order, i, mine, all);
      if package in all {
        result := AppendVersionRecords(result, package, mine[package], all, ops);
      }
    }
    assert order[..|order|] == order;
  }

  /** The parts of a PyPI document `get_versions_from_pypi` reads; `None` marks a missing key. */
  datatype PypiInfo = PypiInfo(license: Option<string>)

  /** `releases` holds the keys of the document's `releases` object, in the dictionary's order. */
  datatype PypiDocument = PypiDocument(releases: Option<seq<string>>, info: Option<PypiInfo>)

  /** What both extractions return: the package name, the versions and the licence. */
  datatype VersionsOf = VersionsOf(name: string, versions: seq<string>, license: string)

  /**
   * `get_versions_from_pypi(package_name)` given the document the index
   * served (`None` when it could not be fetched or parsed).
   */
  function VersionsFromPypi(name: string, doc: Option<PypiDocument>): (r: VersionsOf)
    ensures r.name == name
    ensures doc.None? ==> r == VersionsOf(name, [], UnknownLicense)
    ensures doc.Some? && doc.value.releases.None? ==> r.versions == []
    ensures doc.Some? && doc.value.releases.Some? ==> r.versions == doc.value.releases.value
    ensures doc.Some? && doc.value.info.Some? && doc.value.info.value.license.Some? ==>
              r.license == doc.value.info.value.license.value
    ensures doc.Some? && (doc.value.info.None? || doc.value.info.value.license.None?) ==> r.license == UnknownLicense
  {
    match doc
    case None => VersionsOf(name, [], UnknownLicense)
    case Some(d) =>
      var releases := if d.releases.Some? then d.releases.value else [];
      var license := if d.info.Some? && d.info.value.license.Some? then d.info.value.license.value else UnknownLicense;
      VersionsOf(name, releases, license)
  }

  /** A Python slice bound: negative counts from the end, then clamped to the string. */
  function SliceBound(i: int, n: nat): (b: nat)
    ensures b <= n
    ensures 0 <= i <= n ==> b == i
  {
    if i < 0 then (if i + n < 0 then 0 else i + n)
    else if i > n then n
    else i
  }

  /** Python's `s[i:j]`. */
  function Slice(s: string, i: int, j: int): string {
    var lo, hi := SliceBound(i, |s|), SliceBound(j, |s|);
    if lo < hi then s[lo..hi] else ""
  }

  /** Python's `s.split(sep)` for a non-empty separator: the pieces between the occurrences found from left to right. */
  function SplitOn(s: string, sep: string): (parts: seq<string>)
    requires sep != ""
    ensures parts != []
    decreases |s|
  {
    var k := Find(s, sep);
    if k < 0 then [s] else [s[..k]] + SplitOn(s[k + |sep|..], sep)
  }

  /** `sep.join(parts)`. */
  function Join(parts: seq<string>, sep: string): string {
    if parts == [] then ""
    else if |parts| == 1 then parts[0]
    else parts[0] + sep + Join(parts[1..], sep)
  }

  /** Splitting and joining with the same separator gives the text back. */
  lemma {:induction false} JoinSplitOn(s: string, sep: string)
    requires sep != ""
    ensures Join(SplitOn(s, sep), sep) == s
    decreases |s|
  {
    var k := Find(s, sep);
    if k >= 0 {
      var rest := s[k + |sep|..];
      JoinSplitOn(rest, sep);
      assert s[k..k + |sep|] == sep;
      assert s == s[..k] + s[k..k + |sep|] + rest;
    }
  }

  /** No piece of a split holds the separator. */
  lemma {:induction false} SplitOnPiecesFree(s: string, sep: string)
    requires sep != ""
    ensures forall p :: p in SplitOn(s, sep) ==> Find(p, sep) == -1
    decreases |s|
  {
    var k := Find(s, sep);
    if k >= 0 {
      PrefixFree(s, sep, k);
      SplitOnPiecesFree(s[k + |sep|..], sep);
    }
  }

  /** A prefix ending before the first occurrence of `sub` holds no occurrence of it. */
  lemma PrefixFree(s: string, sub: string, k: nat)
    requires sub != "" && k <= |s|
    requires forall i :: 0 <= i < k ==> !OccursAt(s, sub, i)
    ensures forall i :: !OccursAt(s[..k], sub, i)
  {
    forall i
      ensures !OccursAt(s[..k], sub, i)
    {
      if 0 <= i && i + |sub| <= k {
        assert i < k && !OccursAt(s, sub, i);
        var j :| 0 <= j < |sub| && s[i + j] != sub[j];
        assert s[..k][i + j] == s[i + j];
      }
    }
  }

  /** Where the version list starts: just after the prefix, as `find` returns -1 when the prefix is missing. */
  function PipStart(text: string): nat {
    Find(text, PipPrefix) + |PipPrefix|
  }

  /**
   * `get_versions_from_pip(package_name)` as written, given what pip printed
   * (`None` when it could not be run): the `", "`-separated text from the end
   * of the prefix to the next `")"`. A missing prefix is not noticed, so the
   * text from index 16 on is read as versions.
   */
  function VersionsFromPipAsWritten(name: string, output: Option<string>): (r: VersionsOf)
    ensures r.name == name && r.license == UnknownLicense
    ensures output.None? ==> r.versions == []
  {
    if output.None? then VersionsOf(name, [], UnknownLicense)
    else
      var text := output.value;
      var start := PipStart(text);
      var end := FindFrom(text, PipSuffix, start);
      if start == end then VersionsOf(name, [], UnknownLicense)
      else VersionsOf(name, SplitOn(Slice(text, start, end), PipSeparator), UnknownLicense)
  }

  /** Output of a failed pip run, without the prefix: one empty version is reported instead of none. */
  lemma PipPrefixMissingExample()
    ensures Find("pip: not found", PipPrefix) == -1
    ensures VersionsFromPipAsWritten("foo", Some("pip: not found")).versions == [""]
  {
    var text := "pip: not found";
    assert Slice(text, 16, -1) == "";
  }

  /** `sub` occurs at no index in `[k, n)` where `s` lacks its first character. */
  lemma FirstCharAbsent(s: string, sub: string, k: nat, n: nat)
    requires sub != ""
    requires forall i :: k <= i < n && i < |s| ==> s[i] != sub[0]
    ensures forall i :: k <= i < n ==> !OccursAt(s, sub, i)
  {
    forall i | k <= i < n
      ensures !OccursAt(s, sub, i)
    {
      if i + |sub| <= |s| {
        assert s[i + 0] != sub[0];
      }
    }
  }

  /** Output with the prefix but no `")"` after it: the slice to index -1 drops the last character, so "2.0" is read as "2.". */
  lemma PipSuffixMissingExample()
    ensures FindFrom(" (from versions: 1.0, 2.0", PipSuffix, PipStart(" (from versions: 1.0, 2.0")) == -1
    ensures VersionsFromPipAsWritten("foo", Some(" (from versions: 1.0, 2.0")).versions == ["1.0", "2."]
    ensures VersionsFromPip("foo", Some(" (from versions: 1.0, 2.0")).versions == []
  {
    PipSuffixMissingSpan();
    SplitExample();
  }

  lemma PipSuffixMissingSpan()
    ensures PipStart(" (from versions: 1.0, 2.0") == 17
    ensures FindFrom(" (from versions: 1.0, 2.0", PipSuffix, 17) == -1
    ensures Slice(" (from versions: 1.0, 2.0", 17, -1) == "1.0, 2."
  {
    var text := " (from versions: 1.0, 2.0";
    PrefixAtStart(text);
    assert forall i :: 17 <= i < |text| ==> text[i] != ')';
    FirstCharAbsent(text, PipSuffix, 17, |text|);
  }

  /** Output that starts with the prefix has its versions from index 17 on. */
  lemma PrefixAtStart(text: string)
    requires |text| >= |PipPrefix| && text[..|PipPrefix|] == PipPrefix
    ensures Find(text, PipPrefix) == 0 && PipStart(text) == 17
  {
    assert OccursAt(text, PipPrefix, 0) by {
      forall j | 0 <= j < |PipPrefix|
        ensures text[0 + j] == PipPrefix[j]
      {
        assert text[..|PipPrefix|][j] == text[j];
      }
    }
  }

  lemma SplitExample()
    ensures SplitOn("1.0, 2.", PipSeparator) == ["1.0", "2."]
  {
    var span := "1.0, 2.";
    assert forall i :: 0 <= i < 3 ==> span[i] != ',';
    FirstCharAbsent(span, PipSeparator, 0, 3);
    assert OccursAt(span, PipSeparator, 3);
    assert span[..3] == "1.0" && span[5..] == "2.";
    FirstCharAbsent("2.", PipSeparator, 0, 2);
    assert SplitOn("2.", PipSeparator) == ["2."];
  }

  /** Where pip's output holds the prefix and a `")"` after it, the corrected reading is the one written. */
  lemma VersionsFromPipAgrees(name: string, text: string)
    requires Find(text, PipPrefix) >= 0 && FindFrom(text, PipSuffix, PipStart(text)) >= 0
    ensures VersionsFromPip(name, Some(text)) == VersionsFromPipAsWritten(name, Some(text))
  {
  }

  /**
   * `get_versions_from_pip` as evidently intended: no versions unless the
   * prefix and a `")"` after it are both there; then the versions, joined back
   * with `", "`, are exactly the text between the two.
   */
  function VersionsFromPip(name: string, output: Option<string>): (r: VersionsOf)
    ensures r.name == name && r.license == UnknownLicense
    ensures output.None? || Find(output.value, PipPrefix) == -1 ==> r.versions == []
  {
    if output.None? || Find(output.value, PipPrefix) == -1 || FindFrom(output.value, PipSuffix, PipStart(output.value)) == -1 then
      VersionsOf(name, [], UnknownLicense)
    else VersionsFromPipAsWritten(name, output)
  }

  /** The output holds the prefix and a `")"` after it. */
  predicate PipDelimited(text: string) {
    Find(text, PipPrefix) >= 0 && FindFrom(text, PipSuffix, PipStart(text)) >= 0
  }

  /** The text between the prefix and the next `")"`. */
  function PipSpan(text: string): string
    requires PipDelimited(text)
  {
    text[PipStart(text)..FindFrom(text, PipSuffix, PipStart(text))]
  }

  /**
   * With both delimiters present, the versions hold no separator and join back
   * into the span, and there are none exactly when the span is empty;
   * without them there are none.
   */
  lemma VersionsFromPipSpan(name: string, text: string)
    ensures !PipDelimited(text) ==> VersionsFromPip(name, Some(text)).versions == []
    ensures PipDelimited(text) ==> (VersionsFromPip(name, Some(text)).versions == [] <==> PipSpan(text) == "")
    ensures PipDelimited(text) && PipSpan(text) != "" ==> Join(VersionsFromPip(name, Some(text)).versions, PipSeparator) == PipSpan(text)
    ensures forall v :: v in VersionsFromPip(name, Some(text)).versions ==> Find(v, PipSeparator) == -1
  {
    if PipDelimited(text) {
      var start := PipStart(text);
      var end := FindFrom(text, PipSuffix, start);
      assert Slice(text, start, end) == PipSpan(text);
      if start != end {
        JoinSplitOn(PipSpan(text), PipSeparator);
        SplitOnPiecesFree(PipSpan(text), PipSeparator);
      }
    }
  }
}

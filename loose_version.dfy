/**
 * The ordering of `distutils.version.LooseVersion` under Python 2, which both
 * generations of the tool use to compare version strings.
 *
 * A version string is cut into maximal runs of digits, maximal runs of
 * lower-case letters, single dots, and maximal runs of any other characters;
 * the dots are dropped and every digit run becomes an integer. Two versions
 * compare as their component lists do under Python 2's `cmp`: element by
 * element, an integer is smaller than any string, integers compare by value,
 * strings byte-wise, and a proper prefix is smaller than the longer list.
 */
module LooseVersion {
  import opened Text

  datatype Component = Number(value: nat) | Word(text: string)

  /** The three kinds of run the parser cuts a version string into. */
  datatype RunKind = Digits | Letters | Others

  /** `c` belongs to a run of the kind: a digit, a lower-case letter, or neither of those nor a dot. */
  predicate InRun(c: char, kind: RunKind) {
    match kind
    case Digits => IsDigit(c)
    case Letters => IsLowerLetter(c)
    case Others => !IsDigit(c) && !IsLowerLetter(c) && c != '.'
  }

  /** The end of the run of the kind that starts at index `i`: the first index from `i` on whose character does not belong to it. */
  function RunEnd(v: string, i: nat, kind: RunKind): (j: nat)
    requires i <= |v|
    ensures i <= j <= |v|
    ensures forall k :: i <= k < j ==> InRun(v[k], kind)
    ensures j < |v| ==> !InRun(v[j], kind)
    decreases |v| - i
  {
    if i == |v| || !InRun(v[i], kind) then i else RunEnd(v, i + 1, kind)
  }

  /** The decimal value of the digits `v[i..j]`, as `int()` reads it (leading zeros ignored). */
  function DigitsValue(v: string, i: nat, j: nat): nat
    requires i <= j <= |v|
    requires forall k :: i <= k < j ==> IsDigit(v[k])
    decreases j - i
  {
    if i == j then 0
    else
      assert IsDigit(v[j - 1]);
      DigitsValue(v, i, j - 1) * 10 + (v[j - 1] as int - '0' as int)
  }

  /**
   * The components of `v[i..]`: a dot is skipped, and a run of digits, of
   * lower-case letters or of other characters becomes one component.
   */
  function ParseFrom(v: string, i: nat): (cs: seq<Component>)
    requires i <= |v|
    ensures |cs| <= |v| - i
    ensures forall c :: c in cs && c.Word? ==>
              c.text != [] && forall k :: 0 <= k < |c.text| ==> !IsDigit(c.text[k]) && c.text[k] != '.'
    decreases |v| - i
  {
    if i == |v| then []
    else if v[i] == '.' then ParseFrom(v, i + 1)
    else if IsDigit(v[i]) then
      var j := RunEnd(v, i, Digits);
      [Number(DigitsValue(v, i, j))] + ParseFrom(v, j)
    else if IsLowerLetter(v[i]) then
      var j := RunEnd(v, i, Letters);
      [Word(v[i..j])] + ParseFrom(v, j)
    else
      var j := RunEnd(v, i, Others);
      [Word(v[i..j])] + ParseFrom(v, j)
  }

  /** The component list `LooseVersion.parse` stores in `self.version`. */
  function Parse(v: string): seq<Component> {
    ParseFrom(v, 0)
  }

  /** Python 2 `cmp` of two components: integers sort before strings. */
  function CompareComponent(a: Component, b: Component): (c: int)
    ensures -1 <= c <= 1
    ensures c == 0 <==> a == b
  {
    match (a, b)
    case (Number(x), Number(y)) => if x < y then -1 else if x == y then 0 else 1
    case (Number(_), Word(_)) => -1
    case (Word(_), Number(_)) => 1
    case (Word(x), Word(y)) =>
      LessTotal(x, y);
      LessIrreflexive(x);
      if x == y then 0 else if Less(x, y) then -1 else 1
  }

  /** Python 2 `cmp` of two component lists. */
  function CompareParts(a: seq<Component>, b: seq<Component>): (c: int)
    ensures -1 <= c <= 1
    decreases |a|
  {
    if a == [] && b == [] then 0
    else if a == [] then -1
    else if b == [] then 1
    else
      var h := CompareComponent(a[0], b[0]);
      if h != 0 then h else CompareParts(a[1..], b[1..])
  }

  /** `cmp(LooseVersion(v1), LooseVersion(v2))`. */
  function Compare(v1: string, v2: string): (c: int)
    ensures -1 <= c <= 1
  {
    CompareParts(Parse(v1), Parse(v2))
  }

  lemma {:induction false} ComparePartsZeroIff(a: seq<Component>, b: seq<Component>)
    ensures CompareParts(a, b) == 0 <==> a == b
    decreases |a|
  {
    if a != [] && b != [] && a[0] == b[0] {
      ComparePartsZeroIff(a[1..], b[1..]);
      assert a == [a[0]] + a[1..] && b == [b[0]] + b[1..];
    }
  }

  /** Versions compare equal exactly when they parse to the same components ("1.0" and "1..00" do). */
  lemma CompareZeroIff(v1: string, v2: string)
    ensures Compare(v1, v2) == 0 <==> Parse(v1) == Parse(v2)
  {
    ComparePartsZeroIff(Parse(v1), Parse(v2));
  }

  /** Every version equals itself. */
  lemma CompareReflexive(v: string)
    ensures Compare(v, v) == 0
  {
    ComparePartsZeroIff(Parse(v), Parse(v));
  }

  lemma ComponentAntisymmetric(a: Component, b: Component)
    ensures CompareComponent(a, b) == -CompareComponent(b, a)
  {
    if a.Word? && b.Word? && a.text != b.text {
      LessTotal(a.text, b.text);
      if Less(a.text, b.text) {
        LessAsymmetric(a.text, b.text);
      } else {
        LessAsymmetric(b.text, a.text);
      }
    }
  }

  lemma {:induction false} ComparePartsAntisymmetric(a: seq<Component>, b: seq<Component>)
    ensures CompareParts(a, b) == -CompareParts(b, a)
    decreases |a|
  {
    if a != [] && b != [] {
      ComponentAntisymmetric(a[0], b[0]);
      ComparePartsAntisymmetric(a[1..], b[1..]);
    }
  }

  /** Swapping the arguments negates the result. */
  lemma CompareAntisymmetric(v1: string, v2: string)
    ensures Compare(v1, v2) == -Compare(v2, v1)
  {
    ComparePartsAntisymmetric(Parse(v1), Parse(v2));
  }

  lemma ComponentTransitive(a: Component, b: Component, c: Component)
    requires CompareComponent(a, b) == 1 && CompareComponent(b, c) == 1
    ensures CompareComponent(a, c) == 1
  {
    if a.Word? && b.Word? && c.Word? {
      LessTotal(a.text, b.text);
      LessTotal(b.text, c.text);
      LessTotal(a.text, c.text);
      LessAsymmetric(b.text, a.text);
      LessAsymmetric(c.text, b.text);
      LessTransitive(c.text, b.text, a.text);
      LessIrreflexive(a.text);
      if Less(a.text, c.text) {
        LessAsymmetric(a.text, c.text);
      }
    }
  }

  lemma {:induction false} ComparePartsTransitive(a: seq<Component>, b: seq<Component>, c: seq<Component>)
    requires CompareParts(a, b) == 1 && CompareParts(b, c) == 1
    ensures CompareParts(a, c) == 1
    decreases |a|
  {
    if a != [] && b != [] && c != [] {
      var ab, bc := CompareComponent(a[0], b[0]), CompareComponent(b[0], c[0]);
      if ab == 0 && bc == 0 {
        ComparePartsTransitive(a[1..], b[1..], c[1..]);
      } else if ab == 1 && bc == 1 {
        ComponentTransitive(a[0], b[0], c[0]);
      }
    }
  }

  /** "Newer than" is transitive. */
  lemma CompareTransitive(v1: string, v2: string, v3: string)
    requires Compare(v1, v2) == 1 && Compare(v2, v3) == 1
    ensures Compare(v1, v3) == 1
  {
    ComparePartsTransitive(Parse(v1), Parse(v2), Parse(v3));
  }

  lemma {:induction false} ComparePartsExtension(p: seq<Component>, q: seq<Component>)
    requires q != []
    ensures CompareParts(p + q, p) == 1
    decreases |p|
  {
    if p != [] {
      assert (p + q)[1..] == p[1..] + q;
      ComparePartsExtension(p[1..], q);
    }
  }

  /** A version whose components extend another's with more components is newer ("1.2.1.1" is newer than "1.2.1"). */
  lemma ExtensionIsNewer(longer: string, shorter: string)
    requires |Parse(shorter)| < |Parse(longer)|
    requires Parse(longer)[..|Parse(shorter)|] == Parse(shorter)
    ensures Compare(longer, shorter) == 1
  {
    var p, l := Parse(shorter), Parse(longer);
    assert l == p + l[|p|..];
    ComparePartsExtension(p, l[|p|..]);
  }

  lemma ParseExample1133()
    ensures Parse("1.13.3") == [Number(1), Number(13), Number(3)]
  {
    assert ParseFrom("1.13.3", 5) == [Number(3)];
    assert ParseFrom("1.13.3", 2) == [Number(13), Number(3)];
  }

  lemma ParseExample11313()
    ensures Parse("1.13.13") == [Number(1), Number(13), Number(13)]
  {
    assert ParseFrom("1.13.13", 5) == [Number(13)];
    assert ParseFrom("1.13.13", 2) == [Number(13), Number(13)];
  }

  /** Components compare as numbers, not as text: "1.13.3" is older than "1.13.13". */
  lemma CompareNumericComponents()
    ensures Compare("1.13.3", "1.13.13") == -1
  {
    ParseExample1133();
    ParseExample11313();
  }

  lemma ParseExample131315()
    ensures Parse("13.13.15") == [Number(13), Number(13), Number(15)]
  {
    assert ParseFrom("13.13.15", 6) == [Number(15)];
    assert ParseFrom("13.13.15", 3) == [Number(13), Number(15)];
  }

  lemma ParseExample1131313()
    ensures Parse("113.13.13") == [Number(113), Number(13), Number(13)]
  {
    assert ParseFrom("113.13.13", 7) == [Number(13)];
    assert ParseFrom("113.13.13", 4) == [Number(13), Number(13)];
  }

  /** The leading component decides first: "13.13.15" is older than "113.13.13". */
  lemma CompareLeadingComponent()
    ensures Compare("13.13.15", "113.13.13") == -1
  {
    ParseExample131315();
    ParseExample1131313();
  }

  lemma ParseExampleRc()
    ensures Parse("1.8rc1") == [Number(1), Number(8), Word("rc"), Number(1)]
  {
    assert ParseFrom("1.8rc1", 5) == [Number(1)];
    assert "1.8rc1"[3..5] == "rc";
    assert ParseFrom("1.8rc1", 3) == [Word("rc"), Number(1)];
    assert ParseFrom("1.8rc1", 2) == [Number(8), Word("rc"), Number(1)];
  }

  lemma ParseExample181()
    ensures Parse("1.8.1") == [Number(1), Number(8), Number(1)]
  {
    assert ParseFrom("1.8.1", 4) == [Number(1)];
    assert ParseFrom("1.8.1", 2) == [Number(8), Number(1)];
  }

  /** A letter component sorts after a number: "1.8rc1" is newer than "1.8.1". */
  lemma CompareWordAfterNumber()
    ensures Compare("1.8rc1", "1.8.1") == 1
  {
    ParseExampleRc();
    ParseExample181();
  }
}

/**
 * The dictionaries the reports fill while scanning their inputs, stated as
 * functions of the sequence of (key, value) pairs the scan meets:
 * `dict(pairs)` (the last pair with a key wins), and the grouping of values
 * under their keys, with or without the `if value not in d[key]` test.
 */
module Grouping {
  import opened Versions

  /** The keys of the pairs. */
  function KeysOf<V>(pairs: seq<(string, V)>): set<string> {
    set i | 0 <= i < |pairs| :: pairs[i].0
  }

  /** No later pair has the key of `pairs[i]`. */
  predicate LastWithKey<V>(pairs: seq<(string, V)>, i: nat)
    requires i < |pairs|
  {
    forall j :: i < j < |pairs| ==> pairs[j].0 != pairs[i].0
  }

  lemma KeysOfSnoc<V>(pairs: seq<(string, V)>, q: (string, V))
    ensures KeysOf(pairs + [q]) == KeysOf(pairs) + {q.0}
  {
    var after := pairs + [q];
    forall x | x in KeysOf(after)
      ensures x in KeysOf(pairs) + {q.0}
    {
      var i :| 0 <= i < |after| && after[i].0 == x;
      if i < |pairs| {
        assert pairs[i] == after[i];
      }
    }
    forall x | x in KeysOf(pairs)
      ensures x in KeysOf(after)
    {
      var i :| 0 <= i < |pairs| && pairs[i].0 == x;
      assert after[i] == pairs[i];
    }
    assert after[|pairs|] == q;
  }

  /** `dict(pairs)`: every key of the pairs, mapped to the value of the last pair with that key. */
  function ToMap<V>(pairs: seq<(string, V)>): (d: map<string, V>)
    ensures d.Keys == KeysOf(pairs)
    ensures forall i :: 0 <= i < |pairs| && LastWithKey(pairs, i) ==> d[pairs[i].0] == pairs[i].1
  {
    if pairs == [] then map[]
    else
      var init, last := pairs[..|pairs| - 1], pairs[|pairs| - 1];
      assert pairs == init + [last];
      KeysOfSnoc(init, last);
      var d := ToMap(init);
      assert forall i :: 0 <= i < |init| ==> init[i] == pairs[i];
      assert forall i :: 0 <= i < |init| && LastWithKey(pairs, i) ==> LastWithKey(init, i) && pairs[i].0 != last.0;
      d[last.0 := last.1]
  }

  /** Every entry of `dict(pairs)` is one of the pairs. */
  lemma {:induction false} ToMapFromPairs<V>(pairs: seq<(string, V)>)
    ensures forall k :: k in ToMap(pairs) ==> (k, ToMap(pairs)[k]) in pairs
    decreases |pairs|
  {
    if pairs != [] {
      var init, last := pairs[..|pairs| - 1], pairs[|pairs| - 1];
      ToMapFromPairs(init);
      assert pairs == init + [last];
      assert ToMap(pairs) == ToMap(init)[last.0 := last.1];
    }
  }

  /** The values paired with `key`, in the order of the pairs. */
  function ValuesFor<V>(pairs: seq<(string, V)>, key: string): seq<V> {
    if pairs == [] then []
    else
      var last := pairs[|pairs| - 1];
      ValuesFor(pairs[..|pairs| - 1], key) + (if last.0 == key then [last.1] else [])
  }

  lemma {:induction false} ValuesForMembership<V>(pairs: seq<(string, V)>, key: string)
    ensures forall v :: v in ValuesFor(pairs, key) <==> (key, v) in pairs
    ensures ValuesFor(pairs, key) != [] <==> key in KeysOf(pairs)
    decreases |pairs|
  {
    if pairs != [] {
      var init, last := pairs[..|pairs| - 1], pairs[|pairs| - 1];
      ValuesForMembership(init, key);
      assert pairs == init + [last];
      if key in KeysOf(pairs) && last.0 != key {
        var i :| 0 <= i < |pairs| && pairs[i].0 == key;
        assert init[i] == pairs[i];
      }
    }
  }

  lemma ValuesForSnoc<V>(pairs: seq<(string, V)>, k: string, v: V, key: string)
    ensures ValuesFor(pairs + [(k, v)], key) == ValuesFor(pairs, key) + if k == key then [v] else []
  {
    assert (pairs + [(k, v)])[..|pairs|] == pairs;
  }

  /** The elements of `s` in the order of their first occurrence, each once. */
  function Distinct<V(==, !new)>(s: seq<V>): (r: seq<V>)
    ensures forall x :: x in r <==> x in s
    ensures NoDuplicates(r)
  {
    if s == [] then []
    else
      var init, last := s[..|s| - 1], s[|s| - 1];
      var d := Distinct(init);
      assert s == init + [last];
      if last in init then d else d + [last]
  }

  /**
   * The grouping of the pairs: each key maps to the values paired with it in
   * order, or, when `distinct`, to those values in the order of their first
   * occurrence, each once.
   */
  function Group<V(==, !new)>(pairs: seq<(string, V)>, distinct: bool): map<string, seq<V>> {
    map k | k in KeysOf(pairs) :: if distinct then Distinct(ValuesFor(pairs, k)) else ValuesFor(pairs, k)
  }

  /**
   * The loop step the grouping takes on one more pair: a key not seen yet
   * starts a list, and the value is appended unless `distinct` and the
   * list holds it already.
   */
  function AddTo<V(==, !new)>(d: map<string, seq<V>>, k: string, v: V, distinct: bool): map<string, seq<V>> {
    var list := if k in d then d[k] else [];
    if distinct && v in list then d else d[k := list + [v]]
  }

  lemma DistinctSnoc<V(!new)>(s: seq<V>, v: V)
    ensures Distinct(s + [v]) == if v in s then Distinct(s) else Distinct(s) + [v]
  {
    assert (s + [v])[..|s|] == s;
  }

  lemma GroupAt<V(!new)>(pairs: seq<(string, V)>, distinct: bool, x: string)
    requires x in KeysOf(pairs)
    ensures x in Group(pairs, distinct)
    ensures Group(pairs, distinct)[x] == if distinct then Distinct(ValuesFor(pairs, x)) else ValuesFor(pairs, x)
  {
  }

  /** The list of one key after one more pair. */
  lemma GroupSnocAt<V(!new)>(pairs: seq<(string, V)>, k: string, v: V, distinct: bool, x: string)
    requires x in KeysOf(pairs) || x == k
    ensures var a := AddTo(Group(pairs, distinct), k, v, distinct);
            x in a && x in Group(pairs + [(k, v)], distinct) && Group(pairs + [(k, v)], distinct)[x] == a[x]
  {
    var g := Group(pairs, distinct);
    var a := AddTo(g, k, v, distinct);
    var before, after := ValuesFor(pairs, x), ValuesFor(pairs + [(k, v)], x);
    KeysOfSnoc(pairs, (k, v));
    ValuesForSnoc(pairs, k, v, x);
    GroupAt(pairs + [(k, v)], distinct, x);
    if x != k {
      GroupAt(pairs, distinct, x);
      assert after == before;
    } else {
      ValuesForMembership(pairs, k);
      var list := if k in g then g[k] else [];
      if k in KeysOf(pairs) {
        GroupAt(pairs, distinct, k);
      } else {
        assert before == [];
      }
      assert list == if distinct then Distinct(before) else before;
      if distinct {
        DistinctSnoc(before, v);
      }
    }
  }

  /** Grouping one more pair is one more loop step. */
  lemma GroupSnoc<V(!new)>(pairs: seq<(string, V)>, k: string, v: V, distinct: bool)
    ensures Group(pairs + [(k, v)], distinct) == AddTo(Group(pairs, distinct), k, v, distinct)
  {
    var r, a := Group(pairs + [(k, v)], distinct), AddTo(Group(pairs, distinct), k, v, distinct);
    KeysOfSnoc(pairs, (k, v));
    assert r.Keys == a.Keys;
    forall x | x in r.Keys
      ensures r[x] == a[x]
    {
      GroupSnocAt(pairs, k, v, distinct, x);
    }
  }

  /** A value is grouped under a key exactly when the pair occurs, once each when `distinct`. */
  lemma GroupMembership<V(!new)>(pairs: seq<(string, V)>, distinct: bool)
    ensures Group(pairs, distinct).Keys == KeysOf(pairs)
    ensures forall k, v :: (k in Group(pairs, distinct) && v in Group(pairs, distinct)[k]) <==> (k, v) in pairs
    ensures distinct ==> forall k :: k in Group(pairs, distinct) ==> NoDuplicates(Group(pairs, distinct)[k])
  {
    forall k | k in KeysOf(pairs)
      ensures forall v :: v in Group(pairs, distinct)[k] <==> (k, v) in pairs
    {
      ValuesForMembership(pairs, k);
    }
    forall k, v | (k, v) in pairs
      ensures k in KeysOf(pairs)
    {
      var i :| 0 <= i < |pairs| && pairs[i] == (k, v);
    }
  }

  /** No key is grouped with an empty list, and the grouping is empty exactly when there is no pair. */
  lemma GroupNonEmpty<V(!new)>(pairs: seq<(string, V)>, distinct: bool)
    ensures forall k :: k in Group(pairs, distinct) ==> Group(pairs, distinct)[k] != []
    ensures Group(pairs, distinct) == map[] <==> pairs == []
  {
    var g := Group(pairs, distinct);
    forall k | k in g
      ensures g[k] != []
    {
      ValuesForMembership(pairs, k);
      GroupAt(pairs, distinct, k);
    }
    if pairs != [] {
      assert pairs[0].0 in KeysOf(pairs);
      GroupAt(pairs, distinct, pairs[0].0);
    }
  }
}

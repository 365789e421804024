/**
 * Configuration expansion: `dict_product` turns a dict whose values may be
 * lists into every dict that picks one element from each list.
 *
 * The dict is a sequence of (key, value) pairs in insertion order, so that
 * the order of the output is explicit.  `itertools.product` varies the last
 * key fastest.
 */
module ConfigExpansion {

  /**
   * A value of the input dict: a Python `list`, or anything else, which is
   * taken as a single choice (tuples and strings included).
   */
  datatype Value<V> = Scalar(x: V) | List(items: seq<V>)

  /** `wrap_v`: a list offers its elements, in order; any other value is one choice. */
  function Choices<V>(v: Value<V>): (r: seq<V>)
    ensures v.List? ==> r == v.items
    ensures v.Scalar? ==> r == [v.x]
  {
    match v
    case Scalar(x) => [x]
    case List(items) => items
  }

  /** The keys of the dict. */
  function KeysOf<K, V>(m: seq<(K, Value<V>)>): set<K> {
    if m == [] then {} else {m[0].0} + KeysOf(m[1..])
  }

  /** A Python dict holds each key once. */
  predicate DistinctKeys<K(==), V>(m: seq<(K, Value<V>)>) {
    forall i, j :: 0 <= i < j < |m| ==> m[i].0 != m[j].0
  }

  /** The number of combinations: the product of the numbers of choices. */
  function Count<K, V>(m: seq<(K, Value<V>)>): nat {
    if m == [] then 1 else |Choices(m[0].1)| * Count(m[1..])
  }

  /** Each dict of `ds` with `k` set to `x`. */
  function Extend<K, V>(k: K, x: V, ds: seq<map<K, V>>): seq<map<K, V>> {
    seq(|ds|, i requires 0 <= i < |ds| => ds[i][k := x])
  }

  /** For each choice `x` of `xs` in turn, every dict of `ds` with `k` set to `x`. */
  function Combine<K, V>(k: K, xs: seq<V>, ds: seq<map<K, V>>): seq<map<K, V>> {
    if xs == [] then [] else Extend(k, xs[0], ds) + Combine(k, xs[1..], ds)
  }

  /**
   * `dict_product`: the combinations in the order `itertools.product`
   * yields them, the first key varying slowest.  The empty dict has one
   * combination, the empty dict.  The number of dicts is the product of
   * the numbers of choices.
   */
  function DictProduct<K, V>(m: seq<(K, Value<V>)>): (r: seq<map<K, V>>)
    ensures |r| == Count(m)
  {
    if m == [] then [map[]]
    else
      var rest := DictProduct(m[1..]);
      CombineLength(m[0].0, Choices(m[0].1), rest);
      Combine(m[0].0, Choices(m[0].1), rest)
  }

  lemma {:induction false} CombineLength<K, V>(k: K, xs: seq<V>, ds: seq<map<K, V>>)
    ensures |Combine(k, xs, ds)| == |xs| * |ds|
    decreases |xs|
  {
    if xs != [] {
      CombineLength(k, xs[1..], ds);
      assert |xs| * |ds| == |ds| + (|xs| - 1) * |ds|;
    }
  }

  /** A value with no choices, anywhere in the dict, leaves no combination at all. */
  lemma {:induction false} DictProductEmptyChoice<K, V>(m: seq<(K, Value<V>)>, i: nat)
    requires i < |m| && Choices(m[i].1) == []
    ensures DictProduct(m) == []
  {
    CountZero(m, i);
  }

  lemma {:induction false} CountZero<K, V>(m: seq<(K, Value<V>)>, i: nat)
    requires i < |m| && Choices(m[i].1) == []
    ensures Count(m) == 0
  {
    if i > 0 {
      CountZero(m[1..], i - 1);
    }
  }

  /** Block `a` of a combination holds choice `a` applied to each dict of `ds`, in order. */
  lemma {:induction false} CombineIndex<K, V>(k: K, xs: seq<V>, ds: seq<map<K, V>>, a: nat, b: nat)
    requires a < |xs| && b < |ds|
    ensures a * |ds| + b < |Combine(k, xs, ds)|
    ensures Combine(k, xs, ds)[a * |ds| + b] == ds[b][k := xs[a]]
    decreases a
  {
    var e := Extend(k, xs[0], ds);
    var rest := Combine(k, xs[1..], ds);
    assert Combine(k, xs, ds) == e + rest;
    if a == 0 {
      assert a * |ds| + b == b;
    } else {
      CombineIndex(k, xs[1..], ds, a - 1, b);
      MulStep(a, |ds|);
      assert a * |ds| + b == |e| + ((a - 1) * |ds| + b);
    }
  }

  lemma MulStep(a: nat, n: nat)
    requires a > 0
    ensures a * n == n + (a - 1) * n
  {
  }

  /** Every choice applied to every dict of `ds` appears in the combination. */
  lemma {:induction false} CombineHas<K, V>(k: K, xs: seq<V>, ds: seq<map<K, V>>, x: V, e: map<K, V>)
    requires x in xs && e in ds
    ensures e[k := x] in Combine(k, xs, ds)
    decreases |xs|
  {
    if xs[0] == x {
      var j :| 0 <= j < |ds| && ds[j] == e;
      assert Extend(k, x, ds)[j] == e[k := x];
    } else {
      CombineHas(k, xs[1..], ds, x, e);
    }
  }

  /** Every dict of a combination is one dict of `ds` with `k` set to one choice. */
  lemma {:induction false} CombineMember<K, V>(k: K, xs: seq<V>, ds: seq<map<K, V>>, d: map<K, V>)
    requires d in Combine(k, xs, ds)
    ensures exists a, b :: 0 <= a < |xs| && 0 <= b < |ds| && d == ds[b][k := xs[a]]
    decreases |xs|
  {
    var e := Extend(k, xs[0], ds);
    if d in e {
      var b :| 0 <= b < |e| && e[b] == d;
      assert d == ds[b][k := xs[0]];
    } else {
      CombineMember(k, xs[1..], ds, d);
      var a, b :| 0 <= a < |xs[1..]| && 0 <= b < |ds| && d == ds[b][k := xs[1..][a]];
      assert d == ds[b][k := xs[a + 1]];
    }
  }

  /**
   * Order: with the first key fixed at its `a`-th choice come all the
   * combinations of the remaining keys, in their own order; so the last key
   * varies fastest.
   */
  lemma DictProductIndex<K, V>(m: seq<(K, Value<V>)>, a: nat, b: nat)
    requires m != [] && a < |Choices(m[0].1)| && b < |DictProduct(m[1..])|
    ensures a * |DictProduct(m[1..])| + b < |DictProduct(m)|
    ensures DictProduct(m)[a * |DictProduct(m[1..])| + b] == DictProduct(m[1..])[b][m[0].0 := Choices(m[0].1)[a]]
  {
    CombineIndex(m[0].0, Choices(m[0].1), DictProduct(m[1..]), a, b);
  }

  /** Every combination has exactly the keys of the dict, each set to one of its choices. */
  lemma {:induction false} DictProductSound<K, V>(m: seq<(K, Value<V>)>, d: map<K, V>)
    requires DistinctKeys(m) && d in DictProduct(m)
    ensures d.Keys == KeysOf(m)
    ensures forall i :: 0 <= i < |m| ==> m[i].0 in d && d[m[i].0] in Choices(m[i].1)
  {
    if m == [] {
      assert d == map[];
    } else {
      var rest := DictProduct(m[1..]);
      CombineMember(m[0].0, Choices(m[0].1), rest, d);
      var a, b :| 0 <= a < |Choices(m[0].1)| && 0 <= b < |rest| && d == rest[b][m[0].0 := Choices(m[0].1)[a]];
      DictProductSound(m[1..], rest[b]);
      forall i | 0 <= i < |m| ensures m[i].0 in d && d[m[i].0] in Choices(m[i].1) {
        if i > 0 {
          assert m[i].0 == m[1..][i - 1].0;
          assert m[i].0 != m[0].0;
        }
      }
    }
  }

  /** The keys of the tail of a dict do not hold its first key. */
  lemma {:induction false} KeysOfTail<K, V>(m: seq<(K, Value<V>)>, k: K)
    requires k in KeysOf(m)
    ensures exists i :: 0 <= i < |m| && m[i].0 == k
  {
    if m[0].0 != k {
      KeysOfTail(m[1..], k);
      var i :| 0 <= i < |m[1..]| && m[1..][i].0 == k;
      assert m[i + 1].0 == k;
    }
  }

  /** In a dict with distinct keys the first key does not recur in the rest. */
  lemma FirstKeyFresh<K, V>(m: seq<(K, Value<V>)>)
    requires m != [] && DistinctKeys(m)
    ensures m[0].0 !in KeysOf(m[1..]) && DistinctKeys(m[1..])
  {
    if m[0].0 in KeysOf(m[1..]) {
      KeysOfTail(m[1..], m[0].0);
    }
  }

  /** Removing the first key from a full choice leaves a full choice for the rest. */
  lemma DropFirstChoice<K, V>(m: seq<(K, Value<V>)>, d: map<K, V>)
    requires m != [] && DistinctKeys(m)
    requires d.Keys == KeysOf(m)
    requires forall i :: 0 <= i < |m| ==> m[i].0 in d && d[m[i].0] in Choices(m[i].1)
    ensures var d' := d - {m[0].0};
            d'.Keys == KeysOf(m[1..]) &&
            (forall i :: 0 <= i < |m[1..]| ==> m[1..][i].0 in d' && d'[m[1..][i].0] in Choices(m[1..][i].1))
  {
    FirstKeyFresh(m);
    var d' := d - {m[0].0};
    forall i | 0 <= i < |m[1..]| ensures m[1..][i].0 in d' && d'[m[1..][i].0] in Choices(m[1..][i].1) {
      assert m[1..][i] == m[i + 1];
    }
  }

  /** Every dict that picks one choice for each key is among the combinations. */
  lemma {:induction false} DictProductComplete<K, V>(m: seq<(K, Value<V>)>, d: map<K, V>)
    requires DistinctKeys(m)
    requires d.Keys == KeysOf(m)
    requires forall i :: 0 <= i < |m| ==> m[i].0 in d && d[m[i].0] in Choices(m[i].1)
    ensures d in DictProduct(m)
  {
    if m == [] {
      assert d == map[];
    } else {
      var k := m[0].0;
      var xs := Choices(m[0].1);
      var rest := DictProduct(m[1..]);
      var d' := d - {k};
      DropFirstChoice(m, d);
      FirstKeyFresh(m);
      DictProductComplete(m[1..], d');
      assert d[k] in xs;
      CombineHas(k, xs, rest, d[k], d');
      assert d == d'[k := d[k]];
    }
  }

  /** `{"a": [1, 2], "b": 3}` expands to `{"a": 1, "b": 3}` and then `{"a": 2, "b": 3}`. */
  lemma DictProductExample()
    ensures DictProduct([("a", List([1, 2])), ("b", Scalar(3))]) == [map["a" := 1, "b" := 3], map["a" := 2, "b" := 3]]
  {
    var m := [("a", List([1, 2])), ("b", Scalar(3))];
    assert m[1..] == [("b", Scalar(3))];
    assert DictProduct(m[1..][1..]) == [map[]];
    var tail := DictProduct(m[1..]);
    assert Extend("b", 3, [map[]]) == [map["b" := 3]];
    assert tail == Extend("b", 3, [map[]]) + Combine("b", [], [map[]]);
    assert tail == [map["b" := 3]];
    assert map["b" := 3]["a" := 1] == map["a" := 1, "b" := 3];
    assert map["b" := 3]["a" := 2] == map["a" := 2, "b" := 3];
    assert Extend("a", 1, tail) == [map["a" := 1, "b" := 3]];
    assert Extend("a", 2, tail) == [map["a" := 2, "b" := 3]];
    assert DictProduct(m) == Extend("a", 1, tail) + (Extend("a", 2, tail) + Combine("a", [], tail));
  }
}

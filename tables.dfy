/**
 * Reshaping nested tables: `flipm` swaps the two key levels of a table,
 * `invertm` turns a table of lists inside out, `reorderm` permutes the three
 * levels of a table of lists, `merge` and `dict_by` build dicts.
 *
 * Python iterates a dict in insertion order; the results here do not depend
 * on that order, so the loops pick any key not yet visited.
 */
module Tables {
  import opened Wrappers

  // ---------------------------------------------------------------- flipm

  /**
   * `out` is the flip of the `cells` of `table`: an entry `out[k2][k]`
   * exists exactly for the cells `(k, k2)`, holds `table[k][k2]`, and no
   * inner map of `out` is empty.
   */
  ghost predicate FlipOf<K, K2, V>(out: map<K2, map<K, V>>, table: map<K, map<K2, V>>, cells: set<(K, K2)>)
  {
    (forall c :: c in cells ==> c.0 in table && c.1 in table[c.0])
    && (forall c :: c in cells ==> c.1 in out && c.0 in out[c.1])
    && (forall k2, k :: k2 in out && k in out[k2] ==> (k, k2) in cells)
    && (forall k2, k :: k2 in out && k in out[k2] && k in table && k2 in table[k] ==> out[k2][k] == table[k][k2])
    && (forall k2 :: k2 in out ==> out[k2] != map[])
  }

  /**
   * `out` is the flip of `table`: `out[k2][k]` exists exactly when
   * `table[k][k2]` does and holds the same value, and no inner map of
   * `out` is empty.
   */
  ghost predicate IsFlip<K, K2, V>(out: map<K2, map<K, V>>, table: map<K, map<K2, V>>)
  {
    (forall k, k2 :: k in table && k2 in table[k] ==> k2 in out && k in out[k2] && out[k2][k] == table[k][k2])
    && (forall k2, k :: k2 in out && k in out[k2] ==> k in table && k2 in table[k])
    && (forall k2 :: k2 in out ==> out[k2] != map[])
  }

  /** `ret.setdefault(k2, {})[k] = v`. */
  function PutFlipped<K, K2, V>(ret: map<K2, map<K, V>>, k2: K2, k: K, v: V): (r: map<K2, map<K, V>>)
  {
    ret[k2 := (if k2 in ret then ret[k2] else map[])[k := v]]
  }

  /** Recording one more cell keeps `out` the flip of the cells seen so far. */
  lemma FlipStep<K, K2, V>(out: map<K2, map<K, V>>, table: map<K, map<K2, V>>, cells: set<(K, K2)>, k: K, k2: K2)
    requires FlipOf(out, table, cells)
    requires k in table && k2 in table[k]
    ensures FlipOf(PutFlipped(out, k2, k, table[k][k2]), table, cells + {(k, k2)})
  {
    var out' := PutFlipped(out, k2, k, table[k][k2]);
    var cells' := cells + {(k, k2)};
    forall c | c in cells' ensures c.1 in out' && c.0 in out'[c.1] {
      if c != (k, k2) {
        assert c.1 in out && c.0 in out[c.1];
      }
    }
    forall k2', k' | k2' in out' && k' in out'[k2'] ensures (k', k2') in cells' {
      if k2' == k2 && k' != k {
        assert k2' in out && k' in out[k2'];
      }
    }
    forall k2', k' | k2' in out' && k' in out'[k2'] && k' in table && k2' in table[k']
      ensures out'[k2'][k'] == table[k'][k2']
    {
      if k2' != k2 || k' != k {
        assert k2' in out && k' in out[k2'];
      }
    }
  }

  /**
   * `flipm`: for every cell `table[k][k2] == v` the result holds
   * `ret[k2][k] == v`, and nothing else.
   */
  method FlipTable<K, K2, V>(table: map<K, map<K2, V>>) returns (ret: map<K2, map<K, V>>)
    ensures IsFlip(ret, table)
  {
    ret := map[];
    ghost var cells: set<(K, K2)> := {};
    var todo := table.Keys;
    while todo != {}
      invariant todo <= table.Keys
      invariant FlipOf(ret, table, cells)
      invariant forall k, k2 :: (k, k2) in cells <==> k in table && k !in todo && k2 in table[k]
      decreases |todo|
    {
      var k :| k in todo;
      var m := table[k];
      var todo2 := m.Keys;
      while todo2 != {}
        invariant todo2 <= m.Keys
        invariant FlipOf(ret, table, cells)
        invariant forall k', k2 :: (k', k2) in cells <==>
                    (k' in table && k' !in todo && k2 in table[k']) || (k' == k && k2 in m && k2 !in todo2)
        decreases |todo2|
      {
        var k2 :| k2 in todo2;
        FlipStep(ret, table, cells, k, k2);
        ret := PutFlipped(ret, k2, k, m[k2]);
        cells := cells + {(k, k2)};
        todo2 := todo2 - {k2};
      }
      todo := todo - {k};
    }
  }

  lemma MapsEqual<K, V>(x: map<K, V>, y: map<K, V>)
    requires forall k :: k in x <==> k in y
    requires forall k :: k in x ==> x[k] == y[k]
    ensures x == y
  {
  }

  /** There is only one flip of a table. */
  lemma FlipUnique<K, K2, V>(a: map<K2, map<K, V>>, b: map<K2, map<K, V>>, table: map<K, map<K2, V>>)
    requires IsFlip(a, table) && IsFlip(b, table)
    ensures a == b
  {
    forall k2 | k2 in a ensures k2 in b && a[k2] == b[k2] {
      var k :| k in a[k2];
      assert k in table && k2 in table[k];
      forall k' ensures k' in a[k2] <==> k' in b[k2] {
        if k' in a[k2] { assert k' in table && k2 in table[k']; }
        if k' in b[k2] { assert k' in table && k2 in table[k']; }
      }
      forall k' | k' in a[k2] ensures a[k2][k'] == b[k2][k'] {
        assert k' in table && k2 in table[k'];
      }
      MapsEqual(a[k2], b[k2]);
    }
    forall k2 | k2 in b ensures k2 in a {
      var k :| k in b[k2];
      assert k in table && k2 in table[k];
    }
    MapsEqual(a, b);
  }

  /** Flipping the flip gives the table back, when none of its inner maps is empty. */
  lemma FlipInvolutive<K, K2, V>(table: map<K, map<K2, V>>, out: map<K2, map<K, V>>, back: map<K, map<K2, V>>)
    requires forall k :: k in table ==> table[k] != map[]
    requires IsFlip(out, table) && IsFlip(back, out)
    ensures back == table
  {
    forall k | k in table ensures k in back && back[k] == table[k] {
      var k2 :| k2 in table[k];
      assert k2 in out && k in out[k2];
      forall k2' ensures k2' in back[k] <==> k2' in table[k] {
        if k2' in table[k] { assert k2' in out && k in out[k2']; }
        if k2' in back[k] { assert k2' in out && k in out[k2']; }
      }
      forall k2' | k2' in table[k] ensures back[k][k2'] == table[k][k2'] {
        assert k2' in out && k in out[k2'];
      }
      MapsEqual(back[k], table[k]);
    }
    forall k | k in back ensures k in table {
      var k2 :| k2 in back[k];
      assert k2 in out && k in out[k2];
    }
    MapsEqual(back, table);
  }

  // -------------------------------------------------------------- invertm

  /**
   * `out` is the inverse of `table`: `k in out[v]` exactly when `v` occurs
   * in the list `table[k]`, and no set of `out` is empty.
   */
  ghost predicate IsInverse<K, V>(out: map<V, set<K>>, table: map<K, seq<V>>)
  {
    (forall k, v :: k in table && v in table[k] ==> v in out && k in out[v])
    && (forall v, k :: v in out && k in out[v] ==> k in table && v in table[k])
    && (forall v :: v in out ==> out[v] != {})
  }

  /** `out` is the inverse of the `pairs` (key, value) seen so far. */
  ghost predicate InverseOf<K, V>(out: map<V, set<K>>, pairs: set<(K, V)>)
  {
    (forall p :: p in pairs ==> p.1 in out && p.0 in out[p.1])
    && (forall v, k :: v in out && k in out[v] ==> (k, v) in pairs)
    && (forall v :: v in out ==> out[v] != {})
  }

  /** `ret.setdefault(v, set()).add(k)`. */
  function AddInverse<K, V>(ret: map<V, set<K>>, v: V, k: K): map<V, set<K>>
  {
    ret[v := (if v in ret then ret[v] else {}) + {k}]
  }

  lemma InverseStep<K, V>(out: map<V, set<K>>, pairs: set<(K, V)>, k: K, v: V)
    requires InverseOf(out, pairs)
    ensures InverseOf(AddInverse(out, v, k), pairs + {(k, v)})
  {
    var out' := AddInverse(out, v, k);
    forall v', k' | v' in out' && k' in out'[v'] ensures (k', v') in pairs + {(k, v)} {
      if v' == v && k' != k {
        assert v' in out && k' in out[v'];
      }
    }
  }

  /**
   * `invertm`: every value `v` listed under a key `k` gets `k` in its set,
   * and the result holds nothing else.
   */
  method InvertTable<K, V(==)>(table: map<K, seq<V>>) returns (ret: map<V, set<K>>)
    ensures IsInverse(ret, table)
  {
    ret := map[];
    ghost var pairs: set<(K, V)> := {};
    var todo := table.Keys;
    while todo != {}
      invariant todo <= table.Keys
      invariant InverseOf(ret, pairs)
      invariant forall k, v :: (k, v) in pairs <==> k in table && k !in todo && v in table[k]
      decreases |todo|
    {
      var k :| k in todo;
      var vs := table[k];
      var j := 0;
      while j < |vs|
        invariant 0 <= j <= |vs|
        invariant InverseOf(ret, pairs)
        invariant forall k', v :: (k', v) in pairs <==>
                    (k' in table && k' !in todo && v in table[k']) || (k' == k && v in vs[..j])
      {
        InverseStep(ret, pairs, k, vs[j]);
        ret := AddInverse(ret, vs[j], k);
        pairs := pairs + {(k, vs[j])};
        assert vs[..j + 1] == vs[..j] + [vs[j]];
        j := j + 1;
      }
      assert vs[..j] == vs;
      todo := todo - {k};
    }
  }

  /** There is only one inverse of a table. */
  lemma InverseUnique<K, V>(a: map<V, set<K>>, b: map<V, set<K>>, table: map<K, seq<V>>)
    requires IsInverse(a, table) && IsInverse(b, table)
    ensures a == b
  {
    forall v | v in a ensures v in b && a[v] == b[v] {
      var k :| k in a[v];
      assert k in table && v in table[k];
      forall k' ensures k' in a[v] <==> k' in b[v] {
        if k' in a[v] { assert k' in table && v in table[k']; }
        if k' in b[v] { assert k' in table && v in table[k']; }
      }
    }
    forall v | v in b ensures v in a {
      var k :| k in b[v];
      assert k in table && v in table[k];
    }
    MapsEqual(a, b);
  }

  // ------------------------------------------------------------- reorderm

  /** Python's `fields[i]` on a list: negative indices count from the end. */
  function Index<T>(fields: seq<T>, i: int): (r: Option<T>)
    ensures r.Some? <==> -|fields| <= i < |fields|
    ensures 0 <= i < |fields| ==> r == Some(fields[i])
    ensures -|fields| <= i < 0 ==> r == Some(fields[|fields| + i])
  {
    if 0 <= i < |fields| then Some(fields[i])
    else if -|fields| <= i < 0 then Some(fields[|fields| + i])
    else None
  }

  /** Each position of `order` indexes a list of three fields. */
  predicate ValidOrder(order: (int, int, int)) {
    -3 <= order.0 < 3 && -3 <= order.1 < 3 && -3 <= order.2 < 3
  }

  /** Field `i` of `[k, k2, v]`, for an index `i` in range (negative ones count from the end). */
  function Pick<T>(t: (T, T, T), i: int): (x: T)
    requires -3 <= i < 3
    ensures Index([t.0, t.1, t.2], i) == Some(x)
  {
    var j := if i < 0 then i + 3 else i;
    if j == 0 then t.0 else if j == 1 then t.1 else t.2
  }

  /**
   * The fields of the cell `t == (k, k2, v)` in the order `order` picks, or
   * `None` when one of its positions is out of range.
   */
  function Reorder<T>(t: (T, T, T), order: (int, int, int)): Option<(T, T, T)>
  {
    if ValidOrder(order) then Some((Pick(t, order.0), Pick(t, order.1), Pick(t, order.2))) else None
  }

  /** `v` is listed under `table[k][k2]`. */
  predicate IsCell<T>(table: map<T, map<T, seq<T>>>, t: (T, T, T)) {
    t.0 in table && t.1 in table[t.0] && t.2 in table[t.0][t.1]
  }

  /** The table has at least one listed value. */
  ghost predicate HasCell<T>(table: map<T, map<T, seq<T>>>) {
    exists k, k2, v :: k in table && k2 in table[k] && v in table[k][k2]
  }

  /** `e` is an entry of a three-level table of sets. */
  predicate InSets<T>(out: map<T, map<T, set<T>>>, e: (T, T, T)) {
    e.0 in out && e.1 in out[e.0] && e.2 in out[e.0][e.1]
  }

  /** No inner map and no set of `out` is empty. */
  ghost predicate NoEmptyLevel<T>(out: map<T, map<T, set<T>>>) {
    (forall x :: x in out ==> out[x] != map[])
    && (forall x, y :: x in out && y in out[x] ==> out[x][y] != {})
  }

  /**
   * `out` is `table` reordered: each cell, with its fields permuted by
   * `order`, is an entry of `out`; every entry of `out` comes from a cell;
   * and no level of `out` is empty.
   */
  ghost predicate IsReorder<T>(out: map<T, map<T, set<T>>>, table: map<T, map<T, seq<T>>>, order: (int, int, int))
    requires ValidOrder(order)
  {
    (forall k, k2, v {:trigger IsCell(table, (k, k2, v))} :: k in table && k2 in table[k] && v in table[k][k2] ==>
       InSets(out, Reorder((k, k2, v), order).value))
    && (forall x, y, z :: x in out && y in out[x] && z in out[x][y] ==>
          exists k, k2, v :: k in table && k2 in table[k] && v in table[k][k2] && Reorder((k, k2, v), order) == Some((x, y, z)))
    && NoEmptyLevel(out)
  }

  /** `out` is the reordering of the cells seen so far. */
  ghost predicate ReorderOf<T>(out: map<T, map<T, set<T>>>, cells: set<(T, T, T)>, order: (int, int, int))
  {
    (forall t :: t in cells ==> Reorder(t, order).Some? && InSets(out, Reorder(t, order).value))
    && (forall x, y, z :: x in out && y in out[x] && z in out[x][y] ==>
          exists t :: t in cells && Reorder(t, order) == Some((x, y, z)))
    && NoEmptyLevel(out)
  }

  /** `ret.setdefault(a, {}).setdefault(b, set()).add(c)`. */
  function AddEntry<T>(ret: map<T, map<T, set<T>>>, e: (T, T, T)): map<T, map<T, set<T>>>
  {
    var inner := if e.0 in ret then ret[e.0] else map[];
    var acc := if e.1 in inner then inner[e.1] else {};
    ret[e.0 := inner[e.1 := acc + {e.2}]]
  }

  lemma ReorderStep<T>(out: map<T, map<T, set<T>>>, cells: set<(T, T, T)>, order: (int, int, int), t: (T, T, T))
    requires ReorderOf(out, cells, order) && ValidOrder(order)
    ensures ReorderOf(AddEntry(out, Reorder(t, order).value), cells + {t}, order)
  {
    ReorderStepCovers(out, cells, order, t);
    ReorderStepFrom(out, cells, order, t);
    AddEntryNonEmpty(out, Reorder(t, order).value);
  }

  lemma AddEntryNonEmpty<T>(out: map<T, map<T, set<T>>>, e: (T, T, T))
    requires NoEmptyLevel(out)
    ensures NoEmptyLevel(AddEntry(out, e)) && InSets(AddEntry(out, e), e)
  {
    var out' := AddEntry(out, e);
    forall x, y | x in out' && y in out'[x] ensures out'[x][y] != {} {
      if x != e.0 || y != e.1 {
        assert out'[x][y] == out[x][y];
      } else {
        assert e.2 in out'[x][y];
      }
    }
    forall x | x in out' ensures out'[x] != map[] {
      if x == e.0 {
        assert e.1 in out'[x];
      }
    }
  }

  lemma ReorderStepCovers<T>(out: map<T, map<T, set<T>>>, cells: set<(T, T, T)>, order: (int, int, int), t: (T, T, T))
    requires ReorderOf(out, cells, order) && ValidOrder(order)
    ensures forall t' :: t' in cells + {t} ==> InSets(AddEntry(out, Reorder(t, order).value), Reorder(t', order).value)
  {
    var out' := AddEntry(out, Reorder(t, order).value);
    forall t' | t' in cells + {t} ensures InSets(out', Reorder(t', order).value) {
      if t' != t {
        assert InSets(out, Reorder(t', order).value);
      }
    }
  }

  lemma ReorderStepFrom<T>(out: map<T, map<T, set<T>>>, cells: set<(T, T, T)>, order: (int, int, int), t: (T, T, T))
    requires ReorderOf(out, cells, order) && ValidOrder(order)
    ensures var out' := AddEntry(out, Reorder(t, order).value);
            forall x, y, z :: x in out' && y in out'[x] && z in out'[x][y] ==>
              exists t' :: t' in cells + {t} && Reorder(t', order) == Some((x, y, z))
  {
    var e := Reorder(t, order).value;
    var out' := AddEntry(out, e);
    forall x, y, z | x in out' && y in out'[x] && z in out'[x][y]
      ensures exists t' :: t' in cells + {t} && Reorder(t', order) == Some((x, y, z))
    {
      if (x, y, z) == e {
        assert t in cells + {t};
      } else {
        assert x in out && y in out[x] && z in out[x][y];
      }
    }
  }

  /**
   * The cells visited so far: those of the keys already done, those of `k`
   * under the inner keys already done, and the values `seen` of `table[k][k2]`.
   */
  ghost predicate CellsSeen<T>(cells: set<(T, T, T)>, table: map<T, map<T, seq<T>>>,
                               todo: set<T>, k: T, todo2: set<T>, k2: T, seen: seq<T>)
  {
    (forall t :: t in cells ==>
       IsCell(table, t) && (t.0 !in todo || (t.0 == k && t.1 !in todo2) || (t.0 == k && t.1 == k2 && t.2 in seen)))
    && (forall a, b, c ::
          (a in table && b in table[a] && c in table[a][b] &&
           (a !in todo || (a == k && b !in todo2) || (a == k && b == k2 && c in seen)))
          ==> (a, b, c) in cells)
  }

  lemma CellsNext<T>(cells: set<(T, T, T)>, table: map<T, map<T, seq<T>>>,
                     todo: set<T>, k: T, todo2: set<T>, k2: T, vs: seq<T>, j: nat)
    requires k in table && k2 in table[k] && vs == table[k][k2] && j < |vs|
    requires CellsSeen(cells, table, todo, k, todo2, k2, vs[..j])
    ensures CellsSeen(cells + {(k, k2, vs[j])}, table, todo, k, todo2, k2, vs[..j + 1])
  {
    assert vs[..j + 1] == vs[..j] + [vs[j]];
  }

  lemma CellsNextKey<T>(cells: set<(T, T, T)>, table: map<T, map<T, seq<T>>>,
                        todo: set<T>, k: T, todo2: set<T>, k2: T, vs: seq<T>)
    requires k in table && k2 in table[k] && vs == table[k][k2]
    requires CellsSeen(cells, table, todo, k, todo2, k2, vs[..|vs|])
    ensures forall t :: t in cells <==> IsCell(table, t) && (t.0 !in todo || (t.0 == k && t.1 !in todo2 - {k2}))
  {
    assert vs[..|vs|] == vs;
  }

  /** Once every cell has been visited, `out` is the reordering of the table. */
  lemma ReorderDone<T>(out: map<T, map<T, set<T>>>, cells: set<(T, T, T)>,
                       table: map<T, map<T, seq<T>>>, order: (int, int, int))
    requires ReorderOf(out, cells, order)
    requires forall t :: t in cells <==> IsCell(table, t)
    ensures HasCell(table) ==> ValidOrder(order)
    ensures ValidOrder(order) ==> IsReorder(out, table, order)
    ensures !ValidOrder(order) ==> out == map[]
  {
    if HasCell(table) {
      var a, b, c :| a in table && b in table[a] && c in table[a][b];
      assert (a, b, c) in cells;
    }
    if ValidOrder(order) {
      ReorderDoneCovers(out, cells, table, order);
      ReorderDoneFrom(out, cells, table, order);
    }
  }

  lemma ReorderDoneCovers<T>(out: map<T, map<T, set<T>>>, cells: set<(T, T, T)>,
                             table: map<T, map<T, seq<T>>>, order: (int, int, int))
    requires ReorderOf(out, cells, order) && ValidOrder(order)
    requires forall t :: t in cells <==> IsCell(table, t)
    ensures forall k, k2, v :: k in table && k2 in table[k] && v in table[k][k2] ==>
              InSets(out, Reorder((k, k2, v), order).value)
  {
    forall k, k2, v | k in table && k2 in table[k] && v in table[k][k2]
      ensures InSets(out, Reorder((k, k2, v), order).value)
    {
      assert (k, k2, v) in cells;
    }
  }

  lemma ReorderDoneFrom<T>(out: map<T, map<T, set<T>>>, cells: set<(T, T, T)>,
                           table: map<T, map<T, seq<T>>>, order: (int, int, int))
    requires ReorderOf(out, cells, order)
    requires forall t :: t in cells <==> IsCell(table, t)
    ensures forall x, y, z :: x in out && y in out[x] && z in out[x][y] ==>
              exists k, k2, v :: k in table && k2 in table[k] && v in table[k][k2] && Reorder((k, k2, v), order) == Some((x, y, z))
  {
    forall x, y, z | x in out && y in out[x] && z in out[x][y]
      ensures exists k, k2, v :: k in table && k2 in table[k] && v in table[k][k2] && Reorder((k, k2, v), order) == Some((x, y, z))
    {
      var t :| t in cells && Reorder(t, order) == Some((x, y, z));
      assert IsCell(table, t);
      assert t == (t.0, t.1, t.2);
    }
  }

  /**
   * `reorderm`: every value `v` listed under `table[k][k2]` is recorded at
   * the position that `order` picks out of `[k, k2, v]`.  An index of
   * `order` outside the three fields raises `IndexError` at the first cell
   * reached, so the call fails exactly when the table lists a value and the
   * order is not valid.
   */
  method ReorderTable<T>(table: map<T, map<T, seq<T>>>, order: (int, int, int))
    returns (r: Result<map<T, map<T, set<T>>>>)
    ensures r.Err? <==> HasCell(table) && !ValidOrder(order)
    ensures r.Err? ==> r.error == IndexError
    ensures r.Ok? && ValidOrder(order) ==> IsReorder(r.value, table, order)
    ensures r.Ok? && !ValidOrder(order) ==> r.value == map[]
  {
    var ret: map<T, map<T, set<T>>> := map[];
    ghost var cells: set<(T, T, T)> := {};
    var todo := table.Keys;
    while todo != {}
      invariant todo <= table.Keys
      invariant ReorderOf(ret, cells, order)
      invariant forall t :: t in cells <==> IsCell(table, t) && t.0 !in todo
      decreases |todo|
    {
      var k :| k in todo;
      var m := table[k];
      var todo2 := m.Keys;
      while todo2 != {}
        invariant todo2 <= m.Keys
        invariant ReorderOf(ret, cells, order)
        invariant forall t :: t in cells <==> IsCell(table, t) && (t.0 !in todo || (t.0 == k && t.1 !in todo2))
        decreases |todo2|
      {
        var k2 :| k2 in todo2;
        var vs := m[k2];
        var j := 0;
        while j < |vs|
          invariant 0 <= j <= |vs|
          invariant ReorderOf(ret, cells, order)
          invariant CellsSeen(cells, table, todo, k, todo2, k2, vs[..j])
        {
          var fields := [k, k2, vs[j]];
          var a := Index(fields, order.0);
          if a.None? {
            assert IsCell(table, (k, k2, vs[j]));
            return Err(IndexError);
          }
          var b := Index(fields, order.1);
          if b.None? {
            assert IsCell(table, (k, k2, vs[j]));
            return Err(IndexError);
          }
          var c := Index(fields, order.2);
          if c.None? {
            assert IsCell(table, (k, k2, vs[j]));
            return Err(IndexError);
          }
          ghost var t := (k, k2, vs[j]);
          assert (a.value, b.value, c.value) == Reorder(t, order).value by {
            assert fields == [t.0, t.1, t.2];
            assert Index(fields, order.0) == Some(Pick(t, order.0));
            assert Index(fields, order.1) == Some(Pick(t, order.1));
            assert Index(fields, order.2) == Some(Pick(t, order.2));
          }
          ReorderStep(ret, cells, order, t);
          ret := AddEntry(ret, (a.value, b.value, c.value));
          CellsNext(cells, table, todo, k, todo2, k2, vs, j);
          cells := cells + {(k, k2, vs[j])};
          j := j + 1;
        }
        CellsNextKey(cells, table, todo, k, todo2, k2, vs);
        todo2 := todo2 - {k2};
      }
      todo := todo - {k};
    }
    ReorderDone(ret, cells, table, order);
    return Ok(ret);
  }

  /** Every entry of one reordering of a table is an entry of any other. */
  lemma ReorderEntries<T>(a: map<T, map<T, set<T>>>, b: map<T, map<T, set<T>>>,
                          table: map<T, map<T, seq<T>>>, order: (int, int, int))
    requires ValidOrder(order) && IsReorder(a, table, order) && IsReorder(b, table, order)
    ensures forall x, y, z :: x in a && y in a[x] && z in a[x][y] ==> InSets(b, (x, y, z))
  {
    forall x, y, z | x in a && y in a[x] && z in a[x][y] ensures InSets(b, (x, y, z)) {
      var k, k2, v :| k in table && k2 in table[k] && v in table[k][k2] && Reorder((k, k2, v), order) == Some((x, y, z));
      assert IsCell(table, (k, k2, v));
    }
  }

  /** Two three-level tables of sets without empty levels are equal when they hold the same entries. */
  lemma SameEntries<T>(a: map<T, map<T, set<T>>>, b: map<T, map<T, set<T>>>)
    requires NoEmptyLevel(a) && NoEmptyLevel(b)
    requires forall x, y, z :: x in a && y in a[x] && z in a[x][y] ==> InSets(b, (x, y, z))
    requires forall x, y, z :: x in b && y in b[x] && z in b[x][y] ==> InSets(a, (x, y, z))
    ensures a == b
  {
    forall x | x in a ensures x in b && a[x] == b[x] {
      var y :| y in a[x];
      var z :| z in a[x][y];
      assert InSets(b, (x, y, z));
      forall y' | y' in a[x] ensures y' in b[x] && a[x][y'] == b[x][y'] {
        var z' :| z' in a[x][y'];
        assert InSets(b, (x, y', z'));
        forall z'' ensures z'' in a[x][y'] <==> z'' in b[x][y'] {
          if z'' in a[x][y'] { assert InSets(b, (x, y', z'')); }
          if z'' in b[x][y'] { assert InSets(a, (x, y', z'')); }
        }
      }
      forall y' | y' in b[x] ensures y' in a[x] {
        var z' :| z' in b[x][y'];
        assert InSets(a, (x, y', z'));
      }
      MapsEqual(a[x], b[x]);
    }
    forall x | x in b ensures x in a {
      var y :| y in b[x];
      var z :| z in b[x][y];
      assert InSets(a, (x, y, z));
    }
    MapsEqual(a, b);
  }

  /** There is only one reordering of a table. */
  lemma ReorderUnique<T>(a: map<T, map<T, set<T>>>, b: map<T, map<T, set<T>>>,
                         table: map<T, map<T, seq<T>>>, order: (int, int, int))
    requires ValidOrder(order) && IsReorder(a, table, order) && IsReorder(b, table, order)
    ensures a == b
  {
    ReorderEntries(a, b, table, order);
    ReorderEntries(b, a, table, order);
    SameEntries(a, b);
  }

  /**
   * With the identity order `(0, 1, 2)` the reordering keeps the table's
   * shape: `v` is in `out[k][k2]` exactly when it is listed in `table[k][k2]`.
   */
  lemma ReorderIdentity<T>(out: map<T, map<T, set<T>>>, table: map<T, map<T, seq<T>>>)
    requires IsReorder(out, table, (0, 1, 2))
    ensures forall k, k2, v :: k in out && k2 in out[k] && v in out[k][k2] ==> k in table && k2 in table[k] && v in table[k][k2]
    ensures forall k, k2, v :: k in table && k2 in table[k] && v in table[k][k2] ==> k in out && k2 in out[k] && v in out[k][k2]
  {
    forall k, k2, v | k in out && k2 in out[k] && v in out[k][k2]
      ensures k in table && k2 in table[k] && v in table[k][k2]
    {
      var a, b, c :| a in table && b in table[a] && c in table[a][b] && Reorder((a, b, c), (0, 1, 2)) == Some((k, k2, v));
      assert Reorder((a, b, c), (0, 1, 2)) == Some((a, b, c));
    }
    forall k, k2, v | k in table && k2 in table[k] && v in table[k][k2]
      ensures k in out && k2 in out[k] && v in out[k][k2]
    {
      assert IsCell(table, (k, k2, v));
      assert Reorder((k, k2, v), (0, 1, 2)) == Some((k, k2, v));
    }
  }

  // ---------------------------------------------------------------- merge

  /**
   * `merge`: a copy of `l` updated with `r`.  The keys are those of both
   * dicts, and where both hold a key the value from `r` wins.
   */
  function Merge<K, V>(l: map<K, V>, r: map<K, V>): (m: map<K, V>)
    ensures m.Keys == l.Keys + r.Keys
    ensures forall k :: k in r ==> m[k] == r[k]
    ensures forall k :: k in l && k !in r ==> m[k] == l[k]
  {
    l + r
  }

  // -------------------------------------------------------------- dict_by

  /** `dict_by`: a dict over exactly `keys`, holding `f(k)` at each key `k`. */
  function DictBy<K, V>(keys: set<K>, f: K -> V): (m: map<K, V>)
    ensures m.Keys == keys
    ensures forall k :: k in keys ==> m[k] == f(k)
  {
    map k | k in keys :: f(k)
  }
}

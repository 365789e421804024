/**
 * Splitting a list of items into strided groups: `n_chunks` deals the items
 * out to `g` groups like cards, and `chunks_below_limit` picks the number of
 * groups so that no group holds more than `limit` items.
 */
module Chunks {
  import opened Wrappers

  /** `items[i::g]`: the items at positions `i`, `i + g`, `i + 2g`, ... */
  function Stride<T>(items: seq<T>, i: nat, g: nat): seq<T>
    requires g >= 1
    decreases |items| - i
  {
    if i >= |items| then [] else [items[i]] + Stride(items, i + g, g)
  }

  /**
   * `n_chunks`: `[items[i::g] for i in range(g)]`.  A count `g <= 0` makes
   * `range(g)` empty, so there are no groups at all.
   */
  function NChunks<T>(items: seq<T>, g: int): (chunks: seq<seq<T>>)
    ensures |chunks| == if g <= 0 then 0 else g
  {
    if g <= 0 then [] else seq(g, i requires 0 <= i < g => Stride(items, i, g))
  }

  /** Python's `a // b`, which rounds toward negative infinity. */
  function FloorDiv(a: int, b: int): (q: int)
    requires b != 0
    ensures b > 0 ==> q * b <= a < q * b + b
    ensures b < 0 ==> q * b >= a > q * b + b
  {
    if b > 0 then a / b else (-a) / (-b)
  }

  /**
   * `chunks_below_limit`: `divmod(len(items), limit)` raises
   * `ZeroDivisionError` for a zero limit; otherwise the items are dealt to
   * `len(items) // limit + 1` groups.
   */
  function ChunksBelowLimit<T>(items: seq<T>, limit: int): (r: Result<seq<seq<T>>>)
    ensures r.Err? <==> limit == 0
    ensures r.Err? ==> r.error == ZeroDivisionError
    ensures r.Ok? ==> r.value == NChunks(items, FloorDiv(|items|, limit) + 1)
  {
    if limit == 0 then Err(ZeroDivisionError) else Ok(NChunks(items, FloorDiv(|items|, limit) + 1))
  }

  /** Entry `j` of a stride starting at `i` is the item at position `i + j * g`. */
  lemma {:induction false} StrideIndex<T>(items: seq<T>, i: nat, g: nat, j: nat)
    requires g >= 1 && j < |Stride(items, i, g)|
    ensures i + j * g < |items| && Stride(items, i, g)[j] == items[i + j * g]
    decreases j
  {
    if j > 0 {
      StrideIndex(items, i + g, g, j - 1);
      ShiftStep(i, j, g);
    }
  }

  /** The item at position `i + j * g` is entry `j` of the stride starting at `i`. */
  lemma {:induction false} StrideHas<T>(items: seq<T>, i: nat, g: nat, j: nat)
    requires g >= 1 && i + j * g < |items|
    ensures j < |Stride(items, i, g)| && Stride(items, i, g)[j] == items[i + j * g]
    decreases j
  {
    if j > 0 {
      ShiftStep(i, j, g);
      StrideHas(items, i + g, g, j - 1);
    }
  }

  /** Position `i + j * g` is `j - 1` steps past `i + g`. */
  lemma ShiftStep(i: nat, j: nat, g: nat)
    requires j > 0
    ensures i + j * g == (i + g) + (j - 1) * g
  {
    assert j * g == (j - 1) * g + g;
  }

  /** A stride starting at `i < g` holds `ceil((len - i) / g)` items. */
  lemma {:induction false} StrideLength<T>(items: seq<T>, i: nat, g: nat)
    requires g >= 1 && i <= |items| + g - 1
    ensures |Stride(items, i, g)| == (|items| - i + g - 1) / g
    decreases |items| - i
  {
    if i < |items| {
      StrideLength(items, i + g, g);
      DivStep(|items| - (i + g) + g - 1, g);
    } else {
      assert 0 <= |items| - i + g - 1 < g;
    }
  }

  lemma DivStep(x: int, g: nat)
    requires g >= 1 && x >= 0
    ensures (x + g) / g == x / g + 1
  {
    var q, r := x / g, x % g;
    assert x == r + q * g;
    assert x + g == r + (q + 1) * g;
    ModDivUnique(r, q + 1, g);
  }

  /**
   * Every item lands in exactly one group: the item at position `p` is entry
   * `p / g` of group `p % g`.
   */
  lemma NChunksPlacement<T>(items: seq<T>, g: int, p: nat)
    requires g >= 1 && p < |items|
    ensures p / g < |NChunks(items, g)[p % g]| && NChunks(items, g)[p % g][p / g] == items[p]
  {
    assert p == p % g + (p / g) * g;
    StrideHas(items, p % g, g, p / g);
  }

  /**
   * And every entry of every group is an item: entry `j` of group `i` is the
   * item at position `i + j * g`, a different position for each `(i, j)`.
   */
  lemma NChunksEntry<T>(items: seq<T>, g: int, i: nat, j: nat)
    requires g >= 1 && i < g && j < |NChunks(items, g)[i]|
    ensures i + j * g < |items| && NChunks(items, g)[i][j] == items[i + j * g]
    ensures (i + j * g) % g == i && (i + j * g) / g == j
  {
    StrideIndex(items, i, g, j);
    ModDivUnique(i, j, g);
  }

  lemma ModDivUnique(i: nat, j: nat, g: nat)
    requires i < g
    ensures (i + j * g) % g == i && (i + j * g) / g == j
  {
    var p := i + j * g;
    var q, r := p / g, p % g;
    assert (q - j) * g == i - r;
    MulSign(q - j, g);
  }

  /** The sign of a multiple of `g`, and how far it lies from zero. */
  lemma MulSign(d: int, g: nat)
    ensures d >= 0 ==> d * g >= 0
    ensures d >= 1 ==> d * g >= g
    ensures d >= 2 ==> d * g >= 2 * g
    ensures d <= -1 ==> d * g + g <= 0
  {
    if d >= 2 {
      assert d * g == (d - 2) * g + 2 * g;
    } else if d <= -1 {
      assert d * g == -((-d - 1) * g) - g;
    }
  }

  /** Group sizes differ by at most one, and earlier groups are never the smaller ones. */
  lemma NChunksBalanced<T>(items: seq<T>, g: int, i: nat, j: nat)
    requires g >= 1 && i <= j < g
    ensures |NChunks(items, g)[j]| <= |NChunks(items, g)[i]| <= |NChunks(items, g)[j]| + 1
  {
    StrideLength(items, i, g);
    StrideLength(items, j, g);
    DivClose(|items| - j + g - 1, |items| - i + g - 1, g);
  }

  lemma DivClose(x: int, y: int, g: nat)
    requires g >= 1 && 0 <= x <= y < x + g
    ensures x / g <= y / g <= x / g + 1
  {
    var qx, qy := x / g, y / g;
    assert (qy - qx) * g == (y - x) - y % g + x % g;
    MulSign(qy - qx, g);
  }

  /**
   * With a positive limit there are `len // limit + 1` groups and none holds
   * more than `limit` items.
   */
  lemma ChunksBelowLimitBound<T>(items: seq<T>, limit: int, i: nat)
    requires limit >= 1
    ensures |ChunksBelowLimit(items, limit).value| == |items| / limit + 1
    ensures i < |items| / limit + 1 ==> |ChunksBelowLimit(items, limit).value[i]| <= limit
  {
    var g := |items| / limit + 1;
    assert ChunksBelowLimit(items, limit).value == NChunks(items, g);
    if i < g {
      StrideLength(items, i, g);
      GroupBound(|items|, limit, i);
    }
  }

  /** Dealing `n` items to `n / limit + 1` groups gives each at most `limit`. */
  lemma GroupBound(n: nat, limit: nat, i: nat)
    requires limit >= 1 && i < n / limit + 1
    ensures (n - i + (n / limit + 1) - 1) / (n / limit + 1) <= limit
  {
    var q := n / limit;
    var g := q + 1;
    assert n < g * limit by {
      assert n == q * limit + n % limit;
      assert g * limit == q * limit + limit;
    }
    assert g * (limit + 1) == g * limit + g;
    DivBelow(n - i + g - 1, g, limit + 1);
  }

  lemma DivBelow(x: int, g: nat, c: nat)
    requires g >= 1 && 0 <= x < g * c
    ensures x / g < c
  {
    assert (x / g - c) * g == x - x % g - g * c;
    MulSign(x / g - c, g);
  }

  /** The limit is not strict: five items under a limit of three give a group of three. */
  lemma ChunksBelowLimitFive()
    ensures |ChunksBelowLimit([1, 2, 3, 4, 5], 3).value[0]| == 3
  {
    var items := [1, 2, 3, 4, 5];
    assert Stride(items, 4, 2) == [5] by {
      assert Stride(items, 6, 2) == [];
    }
    assert Stride(items, 0, 2) == [1, 3, 5];
  }

  /**
   * A negative limit raises nothing: `len // limit` is negative for a
   * non-empty list, so there are no groups, and the empty list gives one
   * empty group.
   */
  lemma ChunksNegativeLimit<T>(items: seq<T>, limit: int)
    requires limit < 0
    ensures ChunksBelowLimit(items, limit) == Ok(if items == [] then [[]] else [])
  {
    var q := FloorDiv(|items|, limit);
    if items == [] {
      assert q == 0;
      var c := NChunks(items, 1);
      assert |c| == 1 && c[0] == Stride(items, 0, 1) == [];
      assert c == [[]];
    } else {
      assert q <= -1;
    }
  }
}

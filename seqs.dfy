/**
 * Generic operations on tables held as sequences of rows: boolean-mask
 * selection, column sums and the group-by sums that pandas performs.
 * Every recursive definition peels off the LAST row, so that a loop which
 * walks a table from the front keeps `F(xs[..i])` as its invariant.
 */
module Seqs {

  /** The rows of `xs` that satisfy `p`, in their original order (`df[mask]`). */
  function Filter<T>(xs: seq<T>, p: T -> bool): (r: seq<T>)
    ensures |r| <= |xs|
    decreases |xs|
  {
    if xs == [] then []
    else Filter(xs[..|xs| - 1], p) + (if p(xs[|xs| - 1]) then [xs[|xs| - 1]] else [])
  }

  /** A row is selected exactly when it is in the table and satisfies the mask. */
  lemma {:induction false} FilterMember<T>(xs: seq<T>, p: T -> bool)
    ensures forall x :: x in Filter(xs, p) <==> x in xs && p(x)
    decreases |xs|
  {
    if xs != [] {
      var n := |xs|;
      FilterMember(xs[..n - 1], p);
      assert xs == xs[..n - 1] + [xs[n - 1]];
    }
  }

  /** Selecting from two tables laid end to end is selecting from each. */
  lemma {:induction false} FilterConcat<T>(xs: seq<T>, ys: seq<T>, p: T -> bool)
    ensures Filter(xs + ys, p) == Filter(xs, p) + Filter(ys, p)
    decreases |ys|
  {
    if ys == [] {
      assert xs + ys == xs;
    } else {
      var n := |ys|;
      FilterConcat(xs, ys[..n - 1], p);
      assert (xs + ys)[..|xs + ys| - 1] == xs + ys[..n - 1];
    }
  }

  /** The positions of the rows that `Filter(xs, p)` keeps. */
  ghost function FilterIndices<T>(xs: seq<T>, p: T -> bool): seq<int>
    decreases |xs|
  {
    if xs == [] then []
    else FilterIndices(xs[..|xs| - 1], p) + (if p(xs[|xs| - 1]) then [|xs| - 1] else [])
  }

  /** `a` is the subsequence of `b` found at the strictly increasing positions `idx`. */
  ghost predicate Selects<T>(a: seq<T>, b: seq<T>, idx: seq<int>)
  {
    && |idx| == |a|
    && (forall j :: 0 <= j < |idx| ==> 0 <= idx[j] < |b| && a[j] == b[idx[j]])
    && (forall j1, j2 :: 0 <= j1 < j2 < |idx| ==> idx[j1] < idx[j2])
  }

  /**
   * A selection keeps exactly the rows satisfying the mask, in input order:
   * it is an order-preserving subsequence whose positions are precisely those
   * where the mask holds.
   */
  lemma {:induction false} FilterSelects<T>(xs: seq<T>, p: T -> bool)
    ensures Selects(Filter(xs, p), xs, FilterIndices(xs, p))
    ensures forall i :: i in FilterIndices(xs, p) <==> 0 <= i < |xs| && p(xs[i])
    decreases |xs|
  {
    if xs != [] {
      var n := |xs|;
      var init := xs[..n - 1];
      FilterSelects(init, p);
      var r, idx := Filter(init, p), FilterIndices(init, p);
      forall j | 0 <= j < |idx|
        ensures idx[j] < n - 1 && xs[idx[j]] == init[idx[j]]
      {
        assert idx[j] in idx;
      }
      forall i ensures i in FilterIndices(xs, p) <==> 0 <= i < n && p(xs[i]) {
        if 0 <= i < n - 1 {
          assert xs[i] == init[i];
        }
      }
    }
  }

  /** Two masks that agree on every row select the same rows. */
  lemma {:induction false} FilterExt<T>(xs: seq<T>, p: T -> bool, q: T -> bool)
    requires forall i :: 0 <= i < |xs| ==> p(xs[i]) == q(xs[i])
    ensures Filter(xs, p) == Filter(xs, q)
    decreases |xs|
  {
    if xs != [] {
      var init := xs[..|xs| - 1];
      assert forall i :: 0 <= i < |init| ==> init[i] == xs[i];
      FilterExt(init, p, q);
    }
  }

  /** Selecting with `p` and then with `q` is selecting with `p && q`. */
  lemma {:induction false} FilterFilter<T>(xs: seq<T>, p: T -> bool, q: T -> bool, pq: T -> bool)
    requires forall x :: pq(x) == (p(x) && q(x))
    ensures Filter(Filter(xs, p), q) == Filter(xs, pq)
    decreases |xs|
  {
    if xs != [] {
      var n := |xs|;
      var last := xs[n - 1];
      var fp := Filter(xs[..n - 1], p);
      FilterFilter(xs[..n - 1], p, q, pq);
      if p(last) {
        assert Filter(xs, p) == fp + [last];
        assert (fp + [last])[..|fp|] == fp;
        assert Filter(fp + [last], q) == Filter(fp, q) + (if q(last) then [last] else []);
      } else {
        assert Filter(xs, p) == fp;
      }
    }
  }

  /** A mask that holds on every row selects the whole table. */
  lemma {:induction false} FilterAll<T>(xs: seq<T>, p: T -> bool)
    requires forall i :: 0 <= i < |xs| ==> p(xs[i])
    ensures Filter(xs, p) == xs
    decreases |xs|
  {
    if xs != [] {
      var n := |xs|;
      FilterAll(xs[..n - 1], p);
      assert xs[..n - 1] + [xs[n - 1]] == xs;
    }
  }

  /** The column sum `df[col].sum()` of `f` over the rows of `xs` (0 for no rows). */
  function Sum<T>(xs: seq<T>, f: T -> real): real
    decreases |xs|
  {
    if xs == [] then 0.0 else Sum(xs[..|xs| - 1], f) + f(xs[|xs| - 1])
  }

  /** Appending one element adds its value to the sum. */
  lemma SumSnoc<T>(xs: seq<T>, x: T, f: T -> real)
    ensures Sum(xs + [x], f) == Sum(xs, f) + f(x)
  {
    assert (xs + [x])[..|xs|] == xs;
  }

  /** A sum of non-negative values is non-negative. */
  lemma {:induction false} SumNonNegative<T>(xs: seq<T>, f: T -> real)
    requires forall i :: 0 <= i < |xs| ==> f(xs[i]) >= 0.0
    ensures Sum(xs, f) >= 0.0
    decreases |xs|
  {
    if xs != [] {
      var init := xs[..|xs| - 1];
      assert forall i :: 0 <= i < |init| ==> init[i] == xs[i];
      SumNonNegative(init, f);
    }
  }

  /**
   * Summing over the rows that satisfy `p` or `q`, where no row satisfies both,
   * is summing over each selection separately.
   */
  lemma {:induction false} SumFilterUnion<T>(xs: seq<T>, f: T -> real, p: T -> bool, q: T -> bool, pq: T -> bool)
    requires forall x :: pq(x) == (p(x) || q(x))
    requires forall x :: !(p(x) && q(x))
    ensures Sum(Filter(xs, pq), f) == Sum(Filter(xs, p), f) + Sum(Filter(xs, q), f)
    decreases |xs|
  {
    if xs != [] {
      var n := |xs|;
      var last := xs[n - 1];
      SumFilterUnion(xs[..n - 1], f, p, q, pq);
      var a, b, c := Filter(xs[..n - 1], pq), Filter(xs[..n - 1], p), Filter(xs[..n - 1], q);
      assert (a + [last])[..|a|] == a;
      assert (b + [last])[..|b|] == b;
      assert (c + [last])[..|c|] == c;
      assert a + [] == a && b + [] == b && c + [] == c;
    }
  }

  /** No value occurs twice. */
  predicate Distinct<K(==)>(ks: seq<K>)
  {
    forall i, j :: 0 <= i < j < |ks| ==> ks[i] != ks[j]
  }

  /** The sum of `f` over the rows whose `key` is `g`: one group's cell of `groupby(key)[f].sum()`. */
  function GroupSum<T, K(==)>(xs: seq<T>, key: T -> K, g: K, f: T -> real): real
  {
    Sum(Filter(xs, x => key(x) == g), f)
  }

  /** The sum of the per-group sums of `f` for the groups `gs` of `key`, as a group-by table's column total. */
  function SumGroups<T, K(==)>(gs: seq<K>, xs: seq<T>, key: T -> K, f: T -> real): real
    decreases |gs|
  {
    if gs == [] then 0.0
    else SumGroups(gs[..|gs| - 1], xs, key, f) + GroupSum(xs, key, gs[|gs| - 1], f)
  }

  /**
   * Group sums neither double- nor under-count: adding up the per-group sums
   * over distinct groups gives the sum over every row whose key is one of them.
   */
  lemma {:induction false} PartitionSum<T, K>(gs: seq<K>, xs: seq<T>, key: T -> K, f: T -> real)
    requires Distinct(gs)
    ensures SumGroups(gs, xs, key, f) == Sum(Filter(xs, x => key(x) in gs), f)
    decreases |gs|
  {
    if gs == [] {
      FilterNone(xs, x => key(x) in gs);
    } else {
      var init, g := gs[..|gs| - 1], gs[|gs| - 1];
      assert Distinct(init) by {
        forall i, j | 0 <= i < j < |init| ensures init[i] != init[j] {
          assert init[i] == gs[i] && init[j] == gs[j];
        }
      }
      PartitionSum(init, xs, key, f);
      forall x ensures (key(x) in gs) == (key(x) in init || key(x) == g) {
        assert gs == init + [g];
      }
      assert g !in init;
      assert SumGroups(gs, xs, key, f) == SumGroups(init, xs, key, f) + Sum(Filter(xs, x => key(x) == g), f);
      SumFilterUnion(xs, f, x => key(x) in init, x => key(x) == g, x => key(x) in gs);
      assert Sum(Filter(xs, x => key(x) in gs), f) == Sum(Filter(xs, x => key(x) in init), f) + Sum(Filter(xs, x => key(x) == g), f);
      assert SumGroups(init, xs, key, f) == Sum(Filter(xs, x => key(x) in init), f);
    }
  }

  /** When every row's key is one of the distinct groups, the group sums add up to the whole column sum. */
  lemma PartitionSumAll<T, K>(gs: seq<K>, xs: seq<T>, key: T -> K, f: T -> real)
    requires Distinct(gs)
    requires forall i :: 0 <= i < |xs| ==> key(xs[i]) in gs
    ensures SumGroups(gs, xs, key, f) == Sum(xs, f)
  {
    PartitionSum(gs, xs, key, f);
    FilterAll(xs, x => key(x) in gs);
  }

  /**
   * When the rows whose key is one of the distinct groups are exactly the
   * rows satisfying `p`, the group sums add up to the sum over those rows.
   */
  lemma PartitionSumWhere<T, K>(gs: seq<K>, xs: seq<T>, key: T -> K, f: T -> real, p: T -> bool)
    requires Distinct(gs)
    requires forall i :: 0 <= i < |xs| ==> (key(xs[i]) in gs) == p(xs[i])
    ensures SumGroups(gs, xs, key, f) == Sum(Filter(xs, p), f)
  {
    PartitionSum(gs, xs, key, f);
    FilterExt(xs, x => key(x) in gs, p);
  }

  /** Dropping rows that cannot belong to group `g` leaves that group's sum unchanged. */
  lemma GroupSumRestrict<T, K>(xs: seq<T>, key: T -> K, g: K, f: T -> real, p: T -> bool)
    requires forall x :: key(x) == g ==> p(x)
    ensures GroupSum(Filter(xs, p), key, g, f) == GroupSum(xs, key, g, f)
  {
    FilterFilter(xs, p, x => key(x) == g, x => p(x) && key(x) == g);
    FilterExt(xs, x => p(x) && key(x) == g, x => key(x) == g);
  }

  /** A mask that holds on no row selects nothing. */
  lemma {:induction false} FilterNone<T>(xs: seq<T>, p: T -> bool)
    requires forall i :: 0 <= i < |xs| ==> !p(xs[i])
    ensures Filter(xs, p) == []
    decreases |xs|
  {
    if xs != [] {
      var init := xs[..|xs| - 1];
      assert forall i :: 0 <= i < |init| ==> init[i] == xs[i];
      FilterNone(init, p);
    }
  }

  /**
   * `df[mask]` written as a loop: walks the rows once and appends those the
   * mask accepts.
   */
  method Where<T>(xs: seq<T>, p: T -> bool) returns (r: seq<T>)
    ensures r == Filter(xs, p)
  {
    r := [];
    var i := 0;
    while i < |xs|
      invariant 0 <= i <= |xs|
      invariant r == Filter(xs[..i], p)
    {
      assert xs[..i + 1][..i] == xs[..i];
      if p(xs[i]) {
        r := r + [xs[i]];
      }
      i := i + 1;
    }
    assert xs[..|xs|] == xs;
  }
}

/** Reductions over logical matrices: running sums and products, extremes and the
    position of the first extreme, the left fold that `reduce` performs over
    `entries()`, and the selections that `findMatches`/`findIndexOfMatches` collect. */
module Folds {
  import opened Logical

  // ---------------------------------------------------------------------------
  // Sums and products

  function Plus(a: int, b: int): int { a + b }

  function Times(a: int, b: int): int { a * b }

  /** `op` is associative and `unit` is neutral on both sides. */
  ghost predicate Monoid(op: (int, int) -> int, unit: int) {
    (forall x :: op(unit, x) == x && op(x, unit) == x) &&
    (forall x, y, z :: op(op(x, y), z) == op(x, op(y, z)))
  }

  /** `unit` combined with the elements of `s` from left to right. */
  function Combine(op: (int, int) -> int, unit: int, s: seq<int>): int
    decreases |s|
  {
    if |s| == 0 then unit else op(Combine(op, unit, s[..|s| - 1]), s[|s| - 1])
  }

  /** The sum of `s`, 0 when empty (`reduce((acc, value) => acc + value, 0)`). */
  function Sum(s: seq<int>): int { Combine(Plus, 0, s) }

  /** The product of `s`, 1 when empty (`reduce((acc, value) => acc * value, 1)`). */
  function Prod(s: seq<int>): int { Combine(Times, 1, s) }

  lemma PlusTimesMonoid()
    ensures Monoid(Plus, 0) && Monoid(Times, 1)
  {
    assert forall x, y, z :: Times(Times(x, y), z) == Times(x, Times(y, z)) by {
      forall x: int, y: int, z: int ensures (x * y) * z == x * (y * z) {
        assert (x * y) * z == x * (y * z);
      }
    }
  }

  /** Combining a concatenation combines the two parts. */
  lemma {:induction false} CombineConcat(op: (int, int) -> int, unit: int, a: seq<int>, b: seq<int>)
    requires Monoid(op, unit)
    ensures Combine(op, unit, a + b) == op(Combine(op, unit, a), Combine(op, unit, b))
    decreases |b|
  {
    if |b| == 0 {
      assert a + b == a;
    } else {
      var b', x := b[..|b| - 1], b[|b| - 1];
      assert (a + b)[..|a + b| - 1] == a + b';
      assert (a + b)[|a + b| - 1] == x;
      CombineConcat(op, unit, a, b');
      var ca, cb' := Combine(op, unit, a), Combine(op, unit, b');
      calc {
        Combine(op, unit, a + b);
        op(Combine(op, unit, a + b'), x);
        op(op(ca, cb'), x);
        op(ca, op(cb', x));
        op(ca, Combine(op, unit, b));
      }
    }
  }

  /** The combination of each row of `m` (`sumPerRow()`, `prodPerRow()`). */
  function PerRow(op: (int, int) -> int, unit: int, m: seq<seq<int>>): (r: seq<int>)
    ensures |r| == |m|
  {
    seq(|m|, i requires 0 <= i < |m| => Combine(op, unit, m[i]))
  }

  /** The per-row results combine to the result over the whole matrix: the sum of
      `sumPerRow()` is `sum()` and the product of `prodPerRow()` is `prod()`. */
  lemma {:induction false} RowTotals(op: (int, int) -> int, unit: int, m: seq<seq<int>>)
    requires Monoid(op, unit)
    ensures Combine(op, unit, Flatten(m)) == Combine(op, unit, PerRow(op, unit, m))
    decreases |m|
  {
    if |m| > 0 {
      var pre, last := m[..|m| - 1], m[|m| - 1];
      RowTotals(op, unit, pre);
      CombineConcat(op, unit, Flatten(pre), last);
      PerRowSnoc(op, unit, m);
    }
  }

  /** The per-row results of a matrix are those of its rows but the last, followed by
      the last row's result. */
  lemma PerRowSnoc(op: (int, int) -> int, unit: int, m: seq<seq<int>>)
    requires |m| > 0
    ensures Flatten(m) == Flatten(m[..|m| - 1]) + m[|m| - 1]
    ensures Combine(op, unit, PerRow(op, unit, m)) ==
      op(Combine(op, unit, PerRow(op, unit, m[..|m| - 1])), Combine(op, unit, m[|m| - 1]))
  {
    var rs := PerRow(op, unit, m);
    assert rs[..|m| - 1] == PerRow(op, unit, m[..|m| - 1]);
  }

  // ---------------------------------------------------------------------------
  // Extremes

  /** The largest element of `s` (`Math.max(...s)`). */
  function MaxOf(s: seq<int>): int
    requires |s| > 0
    decreases |s|
  {
    if |s| == 1 then s[0]
    else var m := MaxOf(s[..|s| - 1]); if s[|s| - 1] > m then s[|s| - 1] else m
  }

  /** The smallest element of `s` (`Math.min(...s)`). */
  function MinOf(s: seq<int>): int
    requires |s| > 0
    decreases |s|
  {
    if |s| == 1 then s[0]
    else var m := MinOf(s[..|s| - 1]); if s[|s| - 1] < m then s[|s| - 1] else m
  }

  /** `MaxOf` is an element of `s` and no element exceeds it. */
  lemma {:induction false} MaxOfIsMax(s: seq<int>)
    requires |s| > 0
    ensures MaxOf(s) in s && forall k :: 0 <= k < |s| ==> s[k] <= MaxOf(s)
    decreases |s|
  {
    if |s| > 1 {
      var pre := s[..|s| - 1];
      MaxOfIsMax(pre);
      assert forall k :: 0 <= k < |s| - 1 ==> s[k] == pre[k];
    }
  }

  /** `MinOf` is an element of `s` and no element is below it. */
  lemma {:induction false} MinOfIsMin(s: seq<int>)
    requires |s| > 0
    ensures MinOf(s) in s && forall k :: 0 <= k < |s| ==> MinOf(s) <= s[k]
    decreases |s|
  {
    if |s| > 1 {
      var pre := s[..|s| - 1];
      MinOfIsMin(pre);
      assert forall k :: 0 <= k < |s| - 1 ==> s[k] == pre[k];
    }
  }

  /** The position of the first largest element of `s`: a later element replaces the
      current candidate only when strictly larger. */
  function ArgMax(s: seq<int>): (k: nat)
    requires |s| > 0
    ensures k < |s|
    decreases |s|
  {
    if |s| == 1 then 0
    else var k := ArgMax(s[..|s| - 1]); if s[|s| - 1] > s[k] then |s| - 1 else k
  }

  /** The position of the first smallest element of `s`. */
  function ArgMin(s: seq<int>): (k: nat)
    requires |s| > 0
    ensures k < |s|
    decreases |s|
  {
    if |s| == 1 then 0
    else var k := ArgMin(s[..|s| - 1]); if s[|s| - 1] < s[k] then |s| - 1 else k
  }

  /** `ArgMax` names a largest element, and every element before it is strictly smaller. */
  lemma {:induction false} ArgMaxIsFirstMax(s: seq<int>)
    requires |s| > 0
    ensures ArgMax(s) < |s|
    ensures forall k :: 0 <= k < |s| ==> s[k] <= s[ArgMax(s)]
    ensures forall k :: 0 <= k < ArgMax(s) ==> s[k] < s[ArgMax(s)]
    decreases |s|
  {
    if |s| > 1 {
      var pre := s[..|s| - 1];
      ArgMaxIsFirstMax(pre);
      assert forall k :: 0 <= k < |s| - 1 ==> s[k] == pre[k];
    }
  }

  /** `ArgMin` names a smallest element, and every element before it is strictly larger. */
  lemma {:induction false} ArgMinIsFirstMin(s: seq<int>)
    requires |s| > 0
    ensures ArgMin(s) < |s|
    ensures forall k :: 0 <= k < |s| ==> s[ArgMin(s)] <= s[k]
    ensures forall k :: 0 <= k < ArgMin(s) ==> s[ArgMin(s)] < s[k]
    decreases |s|
  {
    if |s| > 1 {
      var pre := s[..|s| - 1];
      ArgMinIsFirstMin(pre);
      assert forall k :: 0 <= k < |s| - 1 ==> s[k] == pre[k];
    }
  }

  /** Every row's `MaxOf` and `MinOf` are elements of that row and bound it. */
  lemma RowsExtremes(m: seq<seq<int>>)
    requires forall i :: 0 <= i < |m| ==> |m[i]| > 0
    ensures forall i :: 0 <= i < |m| ==> MaxOf(m[i]) in m[i] && MinOf(m[i]) in m[i]
    ensures forall i, k :: 0 <= i < |m| && 0 <= k < |m[i]| ==> MinOf(m[i]) <= m[i][k] <= MaxOf(m[i])
  {
    forall i | 0 <= i < |m|
      ensures MaxOf(m[i]) in m[i] && MinOf(m[i]) in m[i]
      ensures forall k :: 0 <= k < |m[i]| ==> MinOf(m[i]) <= m[i][k] <= MaxOf(m[i])
    {
      MaxOfIsMax(m[i]);
      MinOfIsMin(m[i]);
    }
  }

  /** `row => Math.max(...row)` over the rows: one result per row, which is an element of
      that row and no smaller than any other. */
  function PerRowMax(m: seq<seq<int>>): (r: seq<int>)
    requires forall i :: 0 <= i < |m| ==> |m[i]| > 0
    ensures |r| == |m|
    ensures forall i :: 0 <= i < |m| ==> r[i] in m[i]
    ensures forall i, k :: 0 <= i < |m| && 0 <= k < |m[i]| ==> m[i][k] <= r[i]
  {
    RowsExtremes(m);
    seq(|m|, i requires 0 <= i < |m| => MaxOf(m[i]))
  }

  /** `row => Math.min(...row)` over the rows: one result per row, which is an element of
      that row and no larger than any other. */
  function PerRowMin(m: seq<seq<int>>): (r: seq<int>)
    requires forall i :: 0 <= i < |m| ==> |m[i]| > 0
    ensures |r| == |m|
    ensures forall i :: 0 <= i < |m| ==> r[i] in m[i]
    ensures forall i, k :: 0 <= i < |m| && 0 <= k < |m[i]| ==> r[i] <= m[i][k]
  {
    RowsExtremes(m);
    seq(|m|, i requires 0 <= i < |m| => MinOf(m[i]))
  }

  /** The update of `maxPerCol`: the running value moves only to a strictly larger value. */
  function Larger(acc: int, value: int): int {
    if value > acc then value else acc
  }

  /** The update of `minPerCol`: the running value moves only to a strictly smaller value. */
  function Smaller(acc: int, value: int): int {
    if value < acc then value else acc
  }

  /** Running `Larger` from the first element (which it then meets again) ends on the
      largest element. */
  lemma {:induction false} CombineLarger(s: seq<int>, n: nat)
    requires 0 < n <= |s|
    ensures Combine(Larger, s[0], s[..n]) == MaxOf(s[..n])
    decreases n
  {
    var t := s[..n];
    assert t[..n - 1] == s[..n - 1];
    if n > 1 {
      CombineLarger(s, n - 1);
    } else {
      assert t == [s[0]];
      assert t[..0] == [];
    }
  }

  /** Running `Smaller` from the first element ends on the smallest element. */
  lemma {:induction false} CombineSmaller(s: seq<int>, n: nat)
    requires 0 < n <= |s|
    ensures Combine(Smaller, s[0], s[..n]) == MinOf(s[..n])
    decreases n
  {
    var t := s[..n];
    assert t[..n - 1] == s[..n - 1];
    if n > 1 {
      CombineSmaller(s, n - 1);
    } else {
      assert t == [s[0]];
      assert t[..0] == [];
    }
  }

  /** Column j of `m` from top to bottom (`col(j)`). */
  function Column(m: seq<seq<int>>, j: nat): (c: seq<int>)
    requires forall i :: 0 <= i < |m| ==> j < |m[i]|
    ensures |c| == |m|
  {
    seq(|m|, i requires 0 <= i < |m| => m[i][j])
  }

  // ---------------------------------------------------------------------------
  // Folds over entries

  /** The values of a run of entries. */
  function Values(es: seq<Entry>): (vs: seq<int>)
    ensures |vs| == |es|
  {
    seq(|es|, k requires 0 <= k < |es| => es[k].value)
  }

  lemma ValuesPrefix(es: seq<Entry>, n: nat)
    requires n <= |es|
    ensures Values(es[..n]) == Values(es)[..n]
  {
  }

  /** `reduce(f, init)`: the callback applied to the accumulator and each entry in
      turn, as (accumulator, value, [i, j]). */
  function FoldLeft<A>(f: (A, int, (nat, nat)) -> A, init: A, es: seq<Entry>): A
    decreases |es|
  {
    if |es| == 0 then init
    else var e := es[|es| - 1]; f(FoldLeft(f, init, es[..|es| - 1]), e.value, (e.i, e.j))
  }

  /** `reduceRight(f, init)`: the callback applied to the accumulator and each entry
      from the last one back to the first. */
  function FoldRight<A>(f: (A, int, (nat, nat)) -> A, init: A, es: seq<Entry>): A
    decreases |es|
  {
    if |es| == 0 then init
    else f(FoldRight(f, init, es[1..]), es[0].value, (es[0].i, es[0].j))
  }

  /** One more step of a left fold. */
  lemma FoldLeftSnoc<A>(f: (A, int, (nat, nat)) -> A, init: A, es: seq<Entry>, e: Entry)
    ensures FoldLeft(f, init, es + [e]) == f(FoldLeft(f, init, es), e.value, (e.i, e.j))
  {
    assert (es + [e])[..|es|] == es;
  }

  /** The reducer of `max()`: `Math.max(acc, value)`. */
  function MaxStep(acc: int, value: int, ij: (nat, nat)): int {
    if value > acc then value else acc
  }

  /** The reducer of `min()`: `Math.min(acc, value)`. */
  function MinStep(acc: int, value: int, ij: (nat, nat)): int {
    if value < acc then value else acc
  }

  /** The reducer of `maxIndex()`: the candidate moves only to a strictly larger value. */
  function ArgMaxStep(acc: (int, (nat, nat)), value: int, ij: (nat, nat)): (int, (nat, nat)) {
    if value > acc.0 then (value, ij) else acc
  }

  /** The reducer of `minIndex()`: the candidate moves only to a strictly smaller value. */
  function ArgMinStep(acc: (int, (nat, nat)), value: int, ij: (nat, nat)): (int, (nat, nat)) {
    if value < acc.0 then (value, ij) else acc
  }

  /** The reducer of `sum()`. */
  function SumStep(acc: int, value: int, ij: (nat, nat)): int { acc + value }

  /** The reducer of `prod()`. */
  function ProdStep(acc: int, value: int, ij: (nat, nat)): int { acc * value }

  /** Folding `Math.max` from the first value gives the largest value. */
  lemma {:induction false} FoldMax(es: seq<Entry>)
    requires |es| > 0
    ensures FoldLeft(MaxStep, es[0].value, es) == MaxOf(Values(es))
    decreases |es|
  {
    if |es| > 1 {
      var pre := es[..|es| - 1];
      FoldMax(pre);
      ValuesPrefix(es, |es| - 1);
    }
  }

  /** Folding `Math.min` from the first value gives the smallest value. */
  lemma {:induction false} FoldMin(es: seq<Entry>)
    requires |es| > 0
    ensures FoldLeft(MinStep, es[0].value, es) == MinOf(Values(es))
    decreases |es|
  {
    if |es| > 1 {
      var pre := es[..|es| - 1];
      FoldMin(pre);
      ValuesPrefix(es, |es| - 1);
    }
  }

  /** Folding the `maxIndex` reducer from the first entry ends on the first largest entry. */
  lemma {:induction false} FoldArgMax(es: seq<Entry>)
    requires |es| > 0
    ensures ArgMax(Values(es)) < |es|
    ensures var a := ArgMax(Values(es));
      FoldLeft(ArgMaxStep, (es[0].value, (es[0].i, es[0].j)), es) == (es[a].value, (es[a].i, es[a].j))
    decreases |es|
  {
    ArgMaxIsFirstMax(Values(es));
    if |es| > 1 {
      var pre := es[..|es| - 1];
      FoldArgMax(pre);
      ValuesPrefix(es, |es| - 1);
    }
  }

  /** Folding the `minIndex` reducer from the first entry ends on the first smallest entry. */
  lemma {:induction false} FoldArgMin(es: seq<Entry>)
    requires |es| > 0
    ensures ArgMin(Values(es)) < |es|
    ensures var a := ArgMin(Values(es));
      FoldLeft(ArgMinStep, (es[0].value, (es[0].i, es[0].j)), es) == (es[a].value, (es[a].i, es[a].j))
    decreases |es|
  {
    ArgMinIsFirstMin(Values(es));
    if |es| > 1 {
      var pre := es[..|es| - 1];
      FoldArgMin(pre);
      ValuesPrefix(es, |es| - 1);
    }
  }

  /** Folding `+` from 0 is the sum and folding `*` from 1 is the product of the values. */
  lemma {:induction false} FoldSumProd(es: seq<Entry>)
    ensures FoldLeft(SumStep, 0, es) == Sum(Values(es))
    ensures FoldLeft(ProdStep, 1, es) == Prod(Values(es))
    decreases |es|
  {
    if |es| > 0 {
      var pre := es[..|es| - 1];
      FoldSumProd(pre);
      ValuesPrefix(es, |es| - 1);
    }
  }

  // ---------------------------------------------------------------------------
  // Selections

  /** The values of the entries that satisfy `p`, in order. */
  function MatchingValues(p: (int, (nat, nat)) -> bool, es: seq<Entry>): seq<int>
    decreases |es|
  {
    if |es| == 0 then []
    else
      var e := es[|es| - 1];
      MatchingValues(p, es[..|es| - 1]) + (if p(e.value, (e.i, e.j)) then [e.value] else [])
  }

  /** The positions of the entries that satisfy `p`, in order. */
  function MatchingIndexes(p: (int, (nat, nat)) -> bool, es: seq<Entry>): seq<(nat, nat)>
    decreases |es|
  {
    if |es| == 0 then []
    else
      var e := es[|es| - 1];
      MatchingIndexes(p, es[..|es| - 1]) + (if p(e.value, (e.i, e.j)) then [(e.i, e.j)] else [])
  }

  /** The reducer of `findMatches(p)`: push the value when it matches. */
  function MatchValueStep(p: (int, (nat, nat)) -> bool): (seq<int>, int, (nat, nat)) -> seq<int> {
    (acc: seq<int>, value: int, ij: (nat, nat)) => if p(value, ij) then acc + [value] else acc
  }

  /** The reducer of `findIndexOfMatches(p)`: push the position when it matches. */
  function MatchIndexStep(p: (int, (nat, nat)) -> bool): (seq<(nat, nat)>, int, (nat, nat)) -> seq<(nat, nat)> {
    (acc: seq<(nat, nat)>, value: int, ij: (nat, nat)) => if p(value, ij) then acc + [ij] else acc
  }

  /** Folding the push reducers from [] collects the matching values and positions. */
  lemma {:induction false} FoldMatches(p: (int, (nat, nat)) -> bool, es: seq<Entry>)
    ensures FoldLeft(MatchValueStep(p), [], es) == MatchingValues(p, es)
    ensures FoldLeft(MatchIndexStep(p), [], es) == MatchingIndexes(p, es)
    decreases |es|
  {
    if |es| > 0 {
      FoldMatches(p, es[..|es| - 1]);
    }
  }

  /** A position is collected exactly when some entry at that position satisfies `p`. */
  lemma {:induction false} MatchingIndexesExact(p: (int, (nat, nat)) -> bool, es: seq<Entry>, ij: (nat, nat))
    ensures ij in MatchingIndexes(p, es) <==>
      exists k :: 0 <= k < |es| && (es[k].i, es[k].j) == ij && p(es[k].value, ij)
    decreases |es|
  {
    if |es| > 0 {
      var pre := es[..|es| - 1];
      MatchingIndexesExact(p, pre, ij);
      if ij in MatchingIndexes(p, es) && ij !in MatchingIndexes(p, pre) {
        var k := |es| - 1;
        assert (es[k].i, es[k].j) == ij && p(es[k].value, ij);
      }
      if exists k :: 0 <= k < |es| && (es[k].i, es[k].j) == ij && p(es[k].value, ij) {
        var k :| 0 <= k < |es| && (es[k].i, es[k].j) == ij && p(es[k].value, ij);
        if k < |es| - 1 {
          assert pre[k] == es[k];
        }
      }
    }
  }

  /** The collected values are the values at the collected positions, and no more
      values are collected than there are entries. */
  lemma {:induction false} MatchingValuesAlign(p: (int, (nat, nat)) -> bool, es: seq<Entry>)
    ensures |MatchingValues(p, es)| == |MatchingIndexes(p, es)| <= |es|
    ensures forall k :: 0 <= k < |MatchingValues(p, es)| ==>
      p(MatchingValues(p, es)[k], MatchingIndexes(p, es)[k])
    decreases |es|
  {
    if |es| > 0 {
      MatchingValuesAlign(p, es[..|es| - 1]);
    }
  }
}
